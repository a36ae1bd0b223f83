/** The HPACK header table (src/vtc_h2_tbl.c): 61 static entries and a dynamic
    table bounded in octets, newest entry first; sections 2.3 and 4 of RFC 7541. */
module HpkTable {
  import opened Options
  import opened Words
  import opened HpkInt

  type Text = seq<byte>

  datatype Entry = Entry(key: Text, value: Text)

  /** Section 4.1: 32 octets of overhead per entry. */
  function TrueSize(e: Entry): nat { |e.key| + |e.value| + 32 }

  /** The size as the code computes it, in 32 bits. */
  function EntrySize(e: Entry): (r: nat)
    ensures r <= UINT_MAX && r <= TrueSize(e) && (r == TrueSize(e) <==> TrueSize(e) <= UINT_MAX)
  {
    U32(TrueSize(e))
  }

  function TotalSize(s: seq<Entry>): nat {
    if s == [] then 0 else TotalSize(s[..|s| - 1]) + EntrySize(s[|s| - 1])
  }

  /** The size of a table by section 4.1. */
  function TrueTotal(s: seq<Entry>): nat {
    if s == [] then 0 else TrueTotal(s[..|s| - 1]) + TrueSize(s[|s| - 1])
  }

  ghost predicate Unwrapped(s: seq<Entry>) { forall i :: 0 <= i < |s| ==> TrueSize(s[i]) <= UINT_MAX }

  /** The code's sizes are those of section 4.1 if and only if no entry's size wraps around. */
  lemma {:induction false} SizesRight(s: seq<Entry>)
    ensures TotalSize(s) <= TrueTotal(s) && (TotalSize(s) == TrueTotal(s) <==> Unwrapped(s))
  {
    hide TrueSize, EntrySize;
    if s != [] {
      var n := |s| - 1;
      SizesRight(s[..n]);
      assert Unwrapped(s) <==> Unwrapped(s[..n]) && TrueSize(s[n]) <= UINT_MAX by {
        assert forall i :: 0 <= i < n ==> s[..n][i] == s[i];
      }
    }
  }

  /** An entry of 2^32 octets, which the code takes to need no room. */
  lemma SizeLost()
    ensures var e := Entry(seq(0x7fff_fff0, _ => 0), seq(0x7fff_fff0, _ => 0));
      TrueSize(e) == 0x1_0000_0000 && EntrySize(e) == 0
  {}

  function Code(c: char): byte { c as int % 256 }

  function Ascii(key: string, value: string): Entry {
    Entry(seq(|key|, i requires 0 <= i < |key| => Code(key[i])),
          seq(|value|, i requires 0 <= i < |value| => Code(value[i])))
  }

  const STATIC_LAST: nat := 61

  /** src/vtc_h2_stattbl.h; slot 0 is not a header. */
  function Static(idx: nat): Entry
    requires idx <= STATIC_LAST
  {
    match idx
    case 1 => Ascii(":authority", "")
    case 2 => Ascii(":method", "GET")
    case 3 => Ascii(":method", "POST")
    case 4 => Ascii(":path", "/")
    case 5 => Ascii(":path", "/index.html")
    case 6 => Ascii(":scheme", "http")
    case 7 => Ascii(":scheme", "https")
    case 8 => Ascii(":status", "200")
    case 9 => Ascii(":status", "204")
    case 10 => Ascii(":status", "206")
    case 11 => Ascii(":status", "304")
    case 12 => Ascii(":status", "400")
    case 13 => Ascii(":status", "404")
    case 14 => Ascii(":status", "500")
    case 15 => Ascii("accept-charset", "")
    case 16 => Ascii("accept-encoding", "gzip,deflate")
    case 17 => Ascii("accept-language", "")
    case 18 => Ascii("accept-ranges", "")
    case 19 => Ascii("accept", "")
    case 20 => Ascii("access-control-allow-origin", "")
    case 21 => Ascii("age", "")
    case 22 => Ascii("allow", "")
    case 23 => Ascii("authorization", "")
    case 24 => Ascii("cache-control", "")
    case 25 => Ascii("content-disposition", "")
    case 26 => Ascii("content-encoding", "")
    case 27 => Ascii("content-language", "")
    case 28 => Ascii("content-length", "")
    case 29 => Ascii("content-location", "")
    case 30 => Ascii("content-range", "")
    case 31 => Ascii("content-type", "")
    case 32 => Ascii("cookie", "")
    case 33 => Ascii("date", "")
    case 34 => Ascii("etag", "")
    case 35 => Ascii("expect", "")
    case 36 => Ascii("expires", "")
    case 37 => Ascii("from", "")
    case 38 => Ascii("host", "")
    case 39 => Ascii("if-match", "")
    case 40 => Ascii("if-modified-since", "")
    case 41 => Ascii("if-none-match", "")
    case 42 => Ascii("if-range", "")
    case 43 => Ascii("if-unmodified-since", "")
    case 44 => Ascii("last-modified", "")
    case 45 => Ascii("link", "")
    case 46 => Ascii("location", "")
    case 47 => Ascii("max-forwards", "")
    case 48 => Ascii("proxy-authenticate", "")
    case 49 => Ascii("proxy-authorization", "")
    case 50 => Ascii("range", "")
    case 51 => Ascii("referer", "")
    case 52 => Ascii("refresh", "")
    case 53 => Ascii("retry-after", "")
    case 54 => Ascii("server", "")
    case 55 => Ascii("set-cookie", "")
    case 56 => Ascii("strict-transport-security", "")
    case 57 => Ascii("transfer-encoding", "")
    case 58 => Ascii("user-agent", "")
    case 59 => Ascii("vary", "")
    case 60 => Ascii("via", "")
    case 61 => Ascii("www-authenticate", "")
    case _ => Entry([], [])
  }

  /** The entries that the examples of appendix C of RFC 7541 refer to. */
  lemma StaticExamples1()
    ensures Static(1).key == [0x3a, 0x61, 0x75, 0x74, 0x68, 0x6f, 0x72, 0x69, 0x74, 0x79]
    ensures Static(1).value == []
    ensures Static(2).key == [0x3a, 0x6d, 0x65, 0x74, 0x68, 0x6f, 0x64]
    ensures Static(2).value == [0x47, 0x45, 0x54]
  {}

  lemma StaticExamples2()
    ensures Static(4).key == [0x3a, 0x70, 0x61, 0x74, 0x68]
    ensures Static(4).value == [0x2f]
    ensures Static(5).key == [0x3a, 0x70, 0x61, 0x74, 0x68]
    ensures Static(5).value == [0x2f, 0x69, 0x6e, 0x64, 0x65, 0x78, 0x2e, 0x68, 0x74, 0x6d, 0x6c]
  {}

  lemma StaticExamples3()
    ensures Static(6).key == [0x3a, 0x73, 0x63, 0x68, 0x65, 0x6d, 0x65]
    ensures Static(6).value == [0x68, 0x74, 0x74, 0x70]
    ensures Static(7).key == [0x3a, 0x73, 0x63, 0x68, 0x65, 0x6d, 0x65]
    ensures Static(7).value == [0x68, 0x74, 0x74, 0x70, 0x73]
  {}

  lemma StaticExamples4()
    ensures Static(8).key == [0x3a, 0x73, 0x74, 0x61, 0x74, 0x75, 0x73]
    ensures Static(8).value == [0x32, 0x30, 0x30]
    ensures Static(24).key == [0x63, 0x61, 0x63, 0x68, 0x65, 0x2d, 0x63, 0x6f, 0x6e, 0x74, 0x72, 0x6f, 0x6c]
    ensures Static(33).key == [0x64, 0x61, 0x74, 0x65]
  {}

  lemma StaticExamples5()
    ensures Static(46).key == [0x6c, 0x6f, 0x63, 0x61, 0x74, 0x69, 0x6f, 0x6e]
    ensures Static(55).key == [0x73, 0x65, 0x74, 0x2d, 0x63, 0x6f, 0x6f, 0x6b, 0x69, 0x65]
    ensures Static(58).key == [0x75, 0x73, 0x65, 0x72, 0x2d, 0x61, 0x67, 0x65, 0x6e, 0x74]
  {}

  /** Entry 16 is not that of appendix A, which has a space behind the comma. */
  lemma Sixteenth()
    ensures Static(16).value == [0x67, 0x7a, 0x69, 0x70, 0x2c, 0x64, 0x65, 0x66, 0x6c, 0x61, 0x74, 0x65]
    ensures Static(16).value != [0x67, 0x7a, 0x69, 0x70, 0x2c, 0x20, 0x64, 0x65, 0x66, 0x6c, 0x61, 0x74, 0x65]
  {}

  // ------------------------------------------------ lookup

  /** The entry an index of section 2.3.3 stands for. */
  function Live(dyn: seq<Entry>, idx: nat): Option<Entry> {
    if idx <= STATIC_LAST then Some(Static(idx))
    else if idx - STATIC_LAST - 1 < |dyn| then Some(dyn[idx - STATIC_LAST - 1])
    else None
  }

  /** The lookup of the code, with its guard computed in 32 bits. */
  function Find(dyn: seq<Entry>, idx: nat): Option<Entry> {
    if idx > U32(STATIC_LAST + TotalSize(dyn)) then None else Live(dyn, idx)
  }

  lemma {:induction false} CountBelowSize(s: seq<Entry>)
    ensures 32 * |s| <= TrueTotal(s)
  {
    if s != [] { CountBelowSize(s[..|s| - 1]); }
  }

  /** The guard of the lookup rejects no live index, unless it wraps around or the size of an entry does. */
  lemma FindIsLive(dyn: seq<Entry>, idx: nat)
    ensures Unwrapped(dyn) && STATIC_LAST + TotalSize(dyn) <= UINT_MAX ==> Find(dyn, idx) == Live(dyn, idx)
    ensures Live(dyn, idx).Some? ==> (Find(dyn, idx) == Live(dyn, idx) <==> idx <= U32(STATIC_LAST + TotalSize(dyn)))
  {
    hide TotalSize, TrueTotal, Static, Unwrapped;
    CountBelowSize(dyn);
    SizesRight(dyn);
  }

  /** Some live index is rejected if and only if the wrapped sum is below the last one. */
  lemma SomeIndexLost(dyn: seq<Entry>)
    ensures (exists idx: nat :: Live(dyn, idx).Some? && Find(dyn, idx).None?)
      <==> STATIC_LAST + |dyn| > U32(STATIC_LAST + TotalSize(dyn))
  {
    hide TotalSize, Static, U32;
    if STATIC_LAST + |dyn| > U32(STATIC_LAST + TotalSize(dyn)) {
      assert Live(dyn, STATIC_LAST + |dyn|).Some? && Find(dyn, STATIC_LAST + |dyn|).None?;
    }
  }

  /** One entry of 2^32 - 1 octets, and index 62 is not found. */
  lemma IndexLost()
    ensures var dyn := [Entry(seq(UINT_MAX - 32, _ => 0), [])];
      TotalSize(dyn) == UINT_MAX && Live(dyn, 62) == Some(dyn[0]) && Find(dyn, 62) == None
  {
    var e := Entry(seq(UINT_MAX - 32, _ => 0), []);
    TotalPushed(e, []);
    assert [e] + [] == [e];
  }

  // ------------------------------------------------ eviction

  /** Entries leave from the old end until at most `room` octets are used. */
  function Evicted(s: seq<Entry>, room: int): (r: seq<Entry>)
    ensures |r| <= |s| && r == s[..|r|]
    ensures TotalSize(r) <= room || r == []
    ensures forall k :: |r| < k <= |s| ==> TotalSize(s[..k]) > room
  {
    if s != [] && TotalSize(s) > room then
      var t := s[..|s| - 1];
      var r := Evicted(t, room);
      assert forall k :: |r| < k <= |t| ==> t[..k] == s[..k];
      assert s[..|s|] == s;
      r
    else assert s[..|s|] == s; s
  }

  lemma TotalOfNone()
    ensures TotalSize([]) == 0
  {}

  lemma EvictedStep(s: seq<Entry>, room: int)
    ensures Evicted(s, room) == if s != [] && TotalSize(s) > room then Evicted(s[..|s| - 1], room) else s
  {}

  function Pushed(s: seq<Entry>, max: nat, e: Entry): (r: seq<Entry>) {
    if EntrySize(e) <= max then [e] + Evicted(s, max - EntrySize(e)) else []
  }

  lemma {:induction false} TotalPushed(e: Entry, s: seq<Entry>)
    ensures TotalSize([e] + s) == EntrySize(e) + TotalSize(s)
  {
    var t := [e] + s;
    if s == [] {
      assert t[..0] == [] && t[0] == e;
    } else {
      TotalPushed(e, s[..|s| - 1]);
      assert t[..|t| - 1] == [e] + s[..|s| - 1];
    }
  }

  lemma PushedFits(s: seq<Entry>, max: nat, e: Entry)
    ensures TotalSize(Pushed(s, max, e)) <= max
  {
    if EntrySize(e) <= max {
      TotalPushed(e, Evicted(s, max - EntrySize(e)));
    }
  }

  /** `run` is the longest prefix of `history` (newest first) that fits in `max` octets. */
  ghost predicate IsLongestRun(history: seq<Entry>, max: nat, run: seq<Entry>) {
    && |run| <= |history| && run == history[..|run|]
    && TotalSize(run) <= max
    && forall k :: |run| < k <= |history| ==> TotalSize(history[..k]) > max
  }

  /** The dynamic table after every entry of `history` was pushed, the last element first. */
  function TableAfter(history: seq<Entry>, max: nat): seq<Entry> {
    if history == [] then [] else Pushed(TableAfter(history[1..], max), max, history[0])
  }

  /** A push keeps the table the longest fitting run of the history. */
  lemma PushKeepsRun(history: seq<Entry>, max: nat, s: seq<Entry>, e: Entry)
    requires IsLongestRun(history, max, s)
    ensures IsLongestRun([e] + history, max, Pushed(s, max, e))
  {
    var h := [e] + history;
    var run := Pushed(s, max, e);
    PushedFits(s, max, e);
    if EntrySize(e) <= max {
      var kept := Evicted(s, max - EntrySize(e));
      assert kept == history[..|kept|] by { assert s[..|kept|] == history[..|kept|]; }
      assert run == h[..|run|];
      forall k | |run| < k <= |h| ensures TotalSize(h[..k]) > max {
        assert h[..k] == [e] + history[..k - 1];
        TotalPushed(e, history[..k - 1]);
        if k - 1 <= |s| { assert history[..k - 1] == s[..k - 1]; }
      }
    } else {
      forall k | 0 < k <= |h| ensures TotalSize(h[..k]) > max {
        assert h[..k] == [e] + history[..k - 1];
        TotalPushed(e, history[..k - 1]);
      }
    }
  }

  /** With a fixed bound, the dynamic table is at all times exactly the longest
      most recent run of the history that fits. */
  lemma {:induction false} TableIsLongestRun(history: seq<Entry>, max: nat)
    ensures IsLongestRun(history, max, TableAfter(history, max))
  {
    if history != [] {
      TableIsLongestRun(history[1..], max);
      PushKeepsRun(history[1..], max, TableAfter(history[1..], max), history[0]);
      assert history == [history[0]] + history[1..];
    }
  }

  // ------------------------------------------------ the table as the code keeps it

  /** An indexed name is looked up a second time once entries were evicted for it:
      it must still be there. */
  predicate Survives(dyn: seq<Entry>, max: nat, i: nat, value: Text) {
    && i != 0 && Find(dyn, i).Some?
    && var e := Entry(Find(dyn, i).value.key, value);
       EntrySize(e) <= max ==> Find(Evicted(dyn, max - EntrySize(e)), i).Some?
  }

  /** What a push leaves behind; None if an assertion of push_header fails. */
  function PushedAs(dyn: seq<Entry>, max: nat, key: Option<Text>, i: nat, value: Text): Option<seq<Entry>> {
    if max == 0 then Some(dyn)
    else if key.Some? then Some(Pushed(dyn, max, Entry(key.value, value)))
    else if Survives(dyn, max, i, value) then Some(Pushed(dyn, max, Entry(Find(dyn, i).value.key, value)))
    else None
  }

  /** An entry that survives eviction keeps its index: entries only leave at the old end. */
  lemma SameAfterEviction(dyn: seq<Entry>, room: int, i: nat)
    requires Find(dyn, i).Some? && Find(Evicted(dyn, room), i).Some?
    ensures Find(Evicted(dyn, room), i) == Find(dyn, i)
  {
    hide U32;
  }

  class Ctx {
    var dyn: seq<Entry>
    var maxsize: nat
    var size: nat

    ghost predicate Valid()
      reads this
    {
      size == TotalSize(dyn) <= maxsize <= UINT_MAX
    }

    constructor (max: nat)
      requires max <= UINT_MAX
      ensures Valid() && dyn == [] && maxsize == max
    {
      dyn, maxsize, size := [], max, 0;
    }

    /** pop_header */
    method PopHeader()
      requires size == TotalSize(dyn) && dyn != []
      modifies `dyn, `size
      ensures dyn == old(dyn)[..|old(dyn)| - 1] && size == TotalSize(dyn)
    {
      var h := dyn[|dyn| - 1];
      dyn := dyn[..|dyn| - 1];
      size := size - U32(|h.key| + |h.value| + 32);
    }

    /** The eviction loops of push_header and HPK_ResizeTbl. */
    method Evict(len: nat)
      requires size == TotalSize(dyn) && len <= UINT_MAX
      modifies `dyn, `size
      ensures dyn == Evicted(old(dyn), maxsize - len) && size == TotalSize(dyn)
      ensures size + len <= maxsize || (dyn == [] && size == 0)
    {
      hide Evicted, TotalSize;
      while dyn != [] && maxsize - size < len
        invariant size == TotalSize(dyn)
        invariant Evicted(dyn, maxsize - len) == Evicted(old(dyn), maxsize - len)
        decreases |dyn|
      {
        EvictedStep(dyn, maxsize - len);
        PopHeader();
      }
      EvictedStep(dyn, maxsize - len);
      TotalOfNone();
    }

    /** tbl_get_field and HPK_GetHdr: a walk along the list, counting `idx` down
        through zero to the largest 32-bit number. */
    method GetField(idx: nat) returns (r: Option<Entry>)
      requires Valid() && idx <= UINT_MAX
      ensures r == Find(dyn, idx)
    {
      if idx > U32(STATIC_LAST + size) {
        return None;
      } else if idx <= STATIC_LAST {
        return Some(Static(idx));
      }
      var n: nat := idx - STATIC_LAST - 1;
      var j := 0;
      while j < |dyn|
        invariant 0 <= j <= |dyn| && n == idx - STATIC_LAST - 1 - j
      {
        var found := n == 0;
        n := if n == 0 then UINT_MAX else n - 1;
        if found {
          break;
        }
        j := j + 1;
      }
      if n != 0 && j < |dyn| {
        return Some(dyn[j]);
      } else {
        return None;
      }
    }

    /** push_header.  `ok` is false when one of its assertions fails. */
    method PushHeader(key: Option<Text>, i: nat, value: Text) returns (ok: bool)
      requires Valid() && i <= UINT_MAX
      modifies this
      ensures ok == PushedAs(old(dyn), old(maxsize), key, i, value).Some?
      ensures ok ==> Valid() && maxsize == old(maxsize) && Some(dyn) == PushedAs(old(dyn), maxsize, key, i, value)
    {
      hide U32, Live, Evicted, TotalSize;
      if maxsize == 0 {
        return true;
      }
      var len;
      if key.Some? {
        len := U32(|key.value| + |value| + 32);
        assert len == EntrySize(Entry(key.value, value));
      } else {
        if i == 0 {
          return false;
        }
        var ih := GetField(i);
        if ih.None? {
          return false;
        }
        len := U32(|ih.value.key| + |value| + 32);
        assert len == EntrySize(Entry(ih.value.key, value));
      }
      Evict(len);
      if maxsize - size >= len {
        var k;
        if key.Some? {
          k := key.value;
        } else {
          var ih := GetField(i);
          if ih.None? {
            return false;
          }
          k := ih.value.key;
          SameAfterEviction(old(dyn), maxsize - len, i);
        }
        TotalPushed(Entry(k, value), dyn);
        dyn := [Entry(k, value)] + dyn;
        size := size + len;
      }
      return true;
    }

    /** HPK_ResizeTbl */
    method ResizeTbl(num: nat)
      requires Valid() && num <= UINT_MAX
      modifies this
      ensures Valid() && maxsize == num && dyn == Evicted(old(dyn), num)
    {
      maxsize := num;
      Evict(0);
    }
  }
}
