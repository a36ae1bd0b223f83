/** Prefix integers of HPACK (section 5.1 of RFC 7541), as num_encode and
    num_decode of src/vtc_h2_hpack.c write and read them. */
module HpkInt {
  import opened Words

  predicate IsPrefix(prefix: nat) { 1 <= prefix <= 8 }

  /** `1 << prefix` */
  function Limit(prefix: nat): (r: nat)
    requires IsPrefix(prefix)
    ensures 2 <= r <= 256
  {
    if prefix == 1 then 2 else if prefix == 2 then 4 else if prefix == 3 then 8 else if prefix == 4 then 16
    else if prefix == 5 then 32 else if prefix == 6 then 64 else if prefix == 7 then 128 else 256
  }

  /** `b & (0xff << prefix)` */
  function Flags(prefix: nat, b: byte): (r: byte)
    requires IsPrefix(prefix)
  {
    HighBits(b, Limit(prefix))
  }

  predicate AreFlags(prefix: nat, flags: byte)
    requires IsPrefix(prefix)
  {
    LowBits(flags, Limit(prefix)) == 0 && flags + Limit(prefix) <= 256
  }

  /** Seven bits a byte, least significant first, the top bit on all but the last. */
  function Tail(n: nat): (r: seq<byte>)
    ensures |r| >= 1
  {
    if n < 128 then [n] else [n % 128 + 128] + Tail(n / 128)
  }

  /** What num_encode writes over a byte whose flag bits are `flags`. */
  function NumBytes(prefix: nat, flags: byte, num: nat): (r: seq<byte>)
    requires IsPrefix(prefix) && AreFlags(prefix, flags)
    ensures |r| >= 1
  {
    var pmax := Limit(prefix) - 1;
    if num <= pmax then [flags + num] else [flags + pmax] + Tail(num - pmax)
  }

  /** `used` counts the bytes read. */
  datatype NumResult = Num(num: nat, used: nat) | BadNum | UndefinedShift

  function Weight(k: nat): (r: nat)
    ensures r >= 1
  {
    if k == 0 then 1 else 128 * Weight(k - 1)
  }

  /** The continuation loop of num_decode, after `k` continuation bytes: the shift
      is `7 * k`, and C leaves a shift of 32 or more bits undefined. */
  function TailNum(bytes: seq<byte>, k: nat, acc: nat): (r: NumResult)
    requires acc <= UINT_MAX
    ensures r.Num? ==> acc <= r.num <= UINT_MAX && 1 <= r.used <= |bytes|
  {
    if bytes == [] then BadNum
    else if k > 4 then UndefinedShift
    else
      var low := bytes[0] % 128;
      if Shr(UINT_MAX - acc, Weight(k)) < low then BadNum
      else
        Grows(acc, k, low);
        var acc' := acc + Mul(low, Weight(k));
        if bytes[0] >= 128 then
          var r := TailNum(bytes[1..], k + 1, acc');
          if r.Num? then Num(r.num, r.used + 1) else r
        else Num(acc', 1)
  }

  lemma Grows(acc: nat, k: nat, low: nat)
    requires acc <= UINT_MAX
    ensures Shr(UINT_MAX - acc, Weight(k)) < low <==> acc + Mul(low, Weight(k)) > UINT_MAX
  {
    QuotientBound(UINT_MAX - acc, Weight(k), low);
  }

  lemma QuotientBound(n: nat, d: nat, q: nat)
    requires d > 0
    ensures n / d < q <==> n < q * d
  {
    assert n == d * (n / d) + n % d;
    assert n / d < q ==> d * (n / d + 1) <= d * q;
    assert q <= n / d ==> d * q <= d * (n / d);
  }

  function NumOf(prefix: nat, bytes: seq<byte>): (r: NumResult)
    requires IsPrefix(prefix)
    ensures r.Num? ==> r.num <= UINT_MAX && 1 <= r.used <= |bytes|
  {
    if bytes == [] then BadNum
    else
      var low := LowBits(bytes[0], Limit(prefix));
      if low < Limit(prefix) - 1 then Num(low, 1)
      else
        var r := TailNum(bytes[1..], 0, low);
        if r.Num? then Num(r.num, r.used + 1) else r
  }

  // ------------------------------------------------ round trip

  lemma FlagsSplit(prefix: nat, flags: byte, low: nat)
    requires IsPrefix(prefix) && AreFlags(prefix, flags) && low < Limit(prefix)
    ensures flags + low < 256
    ensures LowBits(flags + low, Limit(prefix)) == low
    ensures Flags(prefix, flags + low) == flags
  {
    hide Mul, LowBits, HighBits, Shr;
    var q, r := Split(flags, Limit(prefix));
    BitsOf(q, Limit(prefix), r);
    BitsOf(q, Limit(prefix), low);
  }

  lemma WeightedDigit(n: nat, k: nat)
    ensures Mul(n, Weight(k)) == Mul(n % 128, Weight(k)) + Mul(n / 128, Weight(k + 1))
  {
    var a, b, w := n / 128, n % 128, Weight(k);
    assert n == 128 * a + b;
    assert (128 * a + b) * w == 128 * (a * w) + b * w;
    assert a * (128 * w) == 128 * (a * w);
  }

  lemma SmallTail(n: nat, k: nat)
    requires 128 <= n < Weight(k)
    ensures k >= 2 && n / 128 < Weight(k - 1)
  {
    assert Weight(0) == 1 && Weight(1) == 128;
  }

  lemma {:induction false} TailRoundTrip(n: nat, k: nat, acc: nat, rest: seq<byte>)
    requires k <= 4 && n < Weight(5 - k) && acc + Mul(n, Weight(k)) <= UINT_MAX
    ensures TailNum(Tail(n) + rest, k, acc) == Num(acc + Mul(n, Weight(k)), |Tail(n)|)
  {
    hide Mul, Weight, TailNum, Tail;
    WeightedDigit(n, k);
    FirstOfTail(n, k, acc, rest);
    if n >= 128 {
      SmallTail(n, 5 - k);
      TailRoundTrip(n / 128, k + 1, acc + Mul(n % 128, Weight(k)), rest);
    } else {
      MulZero(Weight(k + 1));
    }
  }

  /** What is read of the first byte of a tail. */
  lemma FirstOfTail(n: nat, k: nat, acc: nat, rest: seq<byte>)
    requires k <= 4 && acc + Mul(n % 128, Weight(k)) <= UINT_MAX
    ensures var a := acc + Mul(n % 128, Weight(k));
      TailNum(Tail(n) + rest, k, acc)
        == if n < 128 then Num(a, 1)
           else var r := TailNum(Tail(n / 128) + rest, k + 1, a); if r.Num? then Num(r.num, r.used + 1) else r
    ensures |Tail(n)| == if n < 128 then 1 else |Tail(n / 128)| + 1
  {
    hide Mul, Weight, Shr;
    Grows(acc, k, n % 128);
    if n >= 128 {
      assert (Tail(n) + rest)[1..] == Tail(n / 128) + rest;
    }
  }

  lemma MulZero(w: nat)
    ensures Mul(0, w) == 0
  {}

  lemma Weights()
    ensures Weight(0) == 1 && Weight(5) > UINT_MAX
  {
    assert Weight(2) == 16384;
    assert Weight(4) == 268435456;
  }

  /** An integer survives encoding and decoding, and exactly its bytes are read,
      exactly when it is not 2^prefix - 1: num_encode writes that value in one
      byte, which num_decode takes for the start of a longer one. */
  lemma NumRoundTrip(prefix: nat, flags: byte, num: nat, rest: seq<byte>)
    requires IsPrefix(prefix) && AreFlags(prefix, flags) && num <= UINT_MAX
    ensures NumOf(prefix, NumBytes(prefix, flags, num) + rest) == Num(num, |NumBytes(prefix, flags, num)|)
      <==> num != Limit(prefix) - 1
    ensures Flags(prefix, NumBytes(prefix, flags, num)[0]) == flags
  {
    var pmax := Limit(prefix) - 1;
    var bytes := NumBytes(prefix, flags, num);
    FlagsSplit(prefix, flags, if num <= pmax then num else pmax);
    if num <= pmax {
    } else {
      Weights();
      TailRoundTrip(num - pmax, 0, pmax, rest);
      assert (bytes + rest)[1..] == Tail(num - pmax) + rest;
    }
  }

  /** Decoding 2^prefix - 1 reads on into what follows. */
  lemma AllOnesReadsOn(prefix: nat, flags: byte, rest: seq<byte>)
    requires IsPrefix(prefix) && AreFlags(prefix, flags)
    ensures var r := NumOf(prefix, NumBytes(prefix, flags, Limit(prefix) - 1) + rest);
      r.Num? ==> r.used >= 2 && r.num >= Limit(prefix) - 1
  {
    FlagsSplit(prefix, flags, Limit(prefix) - 1);
  }

  // ------------------------------------------------ what the decoder accepts

  /** The value the continuation bytes stand for, with no bound on it. */
  ghost function TailValue(bytes: seq<byte>, k: nat): nat {
    if bytes == [] then 0 else Mul(bytes[0] % 128, Weight(k)) + TailValue(bytes[1..], k + 1)
  }

  /** A continuation: every byte but the last has its top bit set. */
  ghost predicate IsTail(bytes: seq<byte>) {
    |bytes| >= 1 && bytes[|bytes| - 1] < 128 && forall i :: 0 <= i < |bytes| - 1 ==> bytes[i] >= 128
  }

  lemma {:induction false} TailAccepts(bytes: seq<byte>, k: nat, acc: nat, rest: seq<byte>)
    requires acc <= UINT_MAX && IsTail(bytes) && k + |bytes| <= 5
    ensures TailNum(bytes + rest, k, acc) ==
      if acc + TailValue(bytes, k) <= UINT_MAX then Num(acc + TailValue(bytes, k), |bytes|) else BadNum
  {
    hide Mul, Weight, Shr;
    var low := bytes[0] % 128;
    Grows(acc, k, low);
    assert (bytes + rest)[0] == bytes[0];
    assert (bytes + rest)[1..] == bytes[1..] + rest;
    if |bytes| == 1 {
      assert TailValue(bytes[1..], k + 1) == 0;
    } else if acc + Mul(low, Weight(k)) <= UINT_MAX {
      TailAccepts(bytes[1..], k + 1, acc + Mul(low, Weight(k)), rest);
    }
  }

  /** With at most five continuation bytes, num_decode accepts exactly the
      encodings whose value fits in 32 bits, and yields that value. */
  lemma NumAccepts(prefix: nat, first: byte, bytes: seq<byte>, rest: seq<byte>)
    requires IsPrefix(prefix) && LowBits(first, Limit(prefix)) == Limit(prefix) - 1
    requires IsTail(bytes) && |bytes| <= 5
    ensures var v := Limit(prefix) - 1 + TailValue(bytes, 0);
      NumOf(prefix, [first] + (bytes + rest)) == if v <= UINT_MAX then Num(v, 1 + |bytes|) else BadNum
  {
    hide TailNum, IsTail, TailValue;
    TailAccepts(bytes, 0, Limit(prefix) - 1, rest);
    assert ([first] + (bytes + rest))[1..] == bytes + rest;
  }

  // ------------------------------------------------ nothing shorter reads the same

  lemma {:induction false} TailCost(bytes: seq<byte>, k: nat, acc: nat) returns (m: nat)
    requires acc <= UINT_MAX
    ensures var r := TailNum(bytes, k, acc); r.Num? ==> r.num == acc + Mul(m, Weight(k)) && |Tail(m)| <= r.used
  {
    hide Mul, Weight, Shr;
    m := 0;
    if bytes != [] && k <= 4 {
      var low := bytes[0] % 128;
      Grows(acc, k, low);
      if acc + Mul(low, Weight(k)) <= UINT_MAX {
        m := low;
        if bytes[0] >= 128 {
          var n := TailCost(bytes[1..], k + 1, acc + Mul(low, Weight(k)));
          m := low + 128 * n;
          WeightedDigit(m, k);
        }
      }
    }
  }

  /** A number is read from no fewer bytes than num_encode writes for it. */
  lemma NumCost(prefix: nat, flags: byte, bytes: seq<byte>)
    requires IsPrefix(prefix) && AreFlags(prefix, flags)
    ensures var r := NumOf(prefix, bytes); r.Num? ==> r.used >= |NumBytes(prefix, flags, r.num)|
  {
    hide Tail, Mul, LowBits;
    if bytes != [] && LowBits(bytes[0], Limit(prefix)) >= Limit(prefix) - 1 {
      var m := TailCost(bytes[1..], 0, LowBits(bytes[0], Limit(prefix)));
      MulOne(m);
    }
  }

  lemma MulOne(m: nat)
    ensures Mul(m, Weight(0)) == m
  {}

  lemma {:induction false} TailGrows(a: nat, b: nat)
    requires a <= b
    ensures |Tail(a)| <= |Tail(b)|
  {
    if a >= 128 { TailGrows(a / 128, b / 128); }
  }

  lemma NumGrows(prefix: nat, flags: byte, a: nat, b: nat)
    requires IsPrefix(prefix) && AreFlags(prefix, flags) && a <= b
    ensures |NumBytes(prefix, flags, a)| <= |NumBytes(prefix, flags, b)|
  {
    hide Tail, LowBits;
    if a > Limit(prefix) - 1 { TailGrows(a - (Limit(prefix) - 1), b - (Limit(prefix) - 1)); }
  }

  // ------------------------------------------------ appendix C.1 of RFC 7541

  /** 10 and 1337 behind a prefix of five bits, and 42 at the start of a byte. */
  lemma NumExamples(flags: byte)
    requires AreFlags(5, flags)
    ensures NumBytes(5, flags, 10) == [flags + 0x0a] && NumBytes(5, flags, 1337) == [flags + 0x1f, 0x9a, 0x0a]
    ensures NumBytes(8, 0, 42) == [0x2a]
  {
    assert Tail(1306) == [0x9a] + Tail(10);
  }
}
