/** Decimal and hexadecimal integers on the wire, on a 64-bit platform. */
module Numbers {

  import opened ByteCodec

  const TWO_TO_60: int := 0x1000_0000_0000_0000
  const TWO_TO_63: int := 0x8000_0000_0000_0000
  const TWO_TO_64: int := 0x1_0000_0000_0000_0000
  const ZERO: byte := '0' as byte
  const MAX_HEX_INT_CHARS: int := 15

  /** Signed 64-bit arithmetic wraps around. */
  function Wrap64(x: int): (r: int)
    ensures -TWO_TO_63 <= r < TWO_TO_63 && (-TWO_TO_63 <= x < TWO_TO_63 ==> r == x)
  {
    (x + TWO_TO_63) % TWO_TO_64 - TWO_TO_63
  }

  datatype Error = EmptyInt | UnexpectedFirstChar | TooLongInt | TrailingChar | EmptyHexNum | TooLargeHexNum | EndOfInput

  datatype Result = Ok(value: int) | Err(error: Error)

  // ---------- decimal ----------

  function Digit(d: int): byte
    requires 0 <= d < 10
  {
    (ZERO as int + d) as byte
  }

  /** The decimal digits of `n`, without leading zeros. */
  function Decimal(n: nat): (s: bytes)
    ensures s != [] && forall i :: 0 <= i < |s| ==> IsDigit(s[i])
  {
    if n < 10 then [Digit(n)] else Decimal(n / 10) + [Digit(n % 10)]
  }

  /** The number a string of digits stands for. */
  function Number(s: bytes): (n: nat)
    requires forall i :: 0 <= i < |s| ==> IsDigit(s[i])
  {
    if s == [] then 0 else
    assert IsDigit(s[|s| - 1]);
    10 * Number(s[..|s| - 1]) + (s[|s| - 1] as int - ZERO as int)
  }

  lemma {:induction false} NumberOfDecimal(n: nat)
    ensures Number(Decimal(n)) == n
  {
    if n >= 10 {
      NumberOfDecimal(n / 10);
      assert Decimal(n)[..|Decimal(n)| - 1] == Decimal(n / 10);
    } else {
      assert Number([Digit(n)]) == n by { assert [Digit(n)][..0] == []; }
    }
  }

  /** No number but zero starts with a zero. */
  lemma {:induction false} NoLeadingZero(n: nat)
    ensures Decimal(n)[0] == ZERO <==> n == 0
  {
    if n >= 10 { NoLeadingZero(n / 10); }
  }

  /** The first digit counts for as many tens as digits follow it. */
  lemma {:induction false} NumberPlaces(d: byte, s: bytes)
    requires IsDigit(d) && forall i :: 0 <= i < |s| ==> IsDigit(s[i])
    ensures Number([d] + s) == (d as int - '0' as int) * Power10(|s|) + Number(s)
  {
    var t := [d] + s;
    if s == [] {
      assert t[..0] == [];
    } else {
      var n := |s| - 1;
      assert t[..|t| - 1] == [d] + s[..n];
      NumberPlaces(d, s[..n]);
      Distributed(d as int - '0' as int, Power10(n), Number(s[..n]), 10);
    }
  }

  lemma Distributed(v: int, p: int, h: int, base: int)
    ensures base * (v * p + h) == v * (base * p) + base * h
  {
  }

  /** How many leading bytes are digits. */
  function Leading(b: bytes): (n: nat)
    ensures n <= |b| && (n < |b| ==> !IsDigit(b[n])) && forall i :: 0 <= i < n ==> IsDigit(b[i])
  {
    if b == [] || !IsDigit(b[0]) then 0 else 1 + Leading(b[1..])
  }

  lemma {:induction false} NumberGrows(s: bytes, i: nat)
    requires i <= |s| && forall i :: 0 <= i < |s| ==> IsDigit(s[i])
    ensures Number(s[..i]) <= Number(s)
    decreases |s|
  {
    if i < |s| {
      NumberGrows(s[..|s| - 1], i);
      assert s[..|s| - 1][..i] == s[..i];
    } else {
      assert s[..i] == s;
    }
  }

  /** One more digit. */
  lemma NumberNext(b: bytes, i: nat)
    requires i < Leading(b)
    ensures Number(b[..i + 1]) == 10 * Number(b[..i]) + (b[i] as int - ZERO as int)
    ensures Number(b[..i]) <= Number(b[..i + 1]) <= Number(b[..Leading(b)])
  {
    assert b[..i + 1][..i] == b[..i];
    NumberGrows(b[..Leading(b)], i + 1);
    assert b[..Leading(b)][..i + 1] == b[..i + 1];
  }

  /** A value or an error, and where reading stopped. */
  datatype Scan = Scan(result: Result, n: int)

  /** Reading on at `i` with the value `v` so far; the overflow test compares with the previous value only. */
  function UintFrom(b: bytes, i: nat, v: int): Scan
    requires i <= |b|
    decreases |b| - i
  {
    if i == |b| then Scan(Ok(v), i)
    else if !IsDigit(b[i]) then Scan(if i == 0 then Err(UnexpectedFirstChar) else Ok(v), i)
    else
      var next := Wrap64(10 * v + (b[i] as int - ZERO as int));
      if next < v then Scan(Err(TooLongInt), i) else UintFrom(b, i + 1, next)
  }

  function UintBuf(b: bytes): Scan { if b == [] then Scan(Err(EmptyInt), 0) else UintFrom(b, 0, 0) }

  /** A number that fills the whole string; an early stop of any kind is a trailing character. */
  function ParseUint(b: bytes): Result {
    var s := UintBuf(b);
    if s.n != |b| then Err(TrailingChar) else s.result
  }

  method ParseUintBuf(b: bytes) returns (r: Scan)
    ensures r == UintBuf(b)
  {
    if |b| == 0 {
      return Scan(Err(EmptyInt), 0);
    }
    var v := 0;
    for i := 0 to |b|
      invariant UintFrom(b, i, v) == UintFrom(b, 0, 0)
    {
      var c := b[i];
      if !IsDigit(c) {
        if i == 0 {
          return Scan(Err(UnexpectedFirstChar), i);
        }
        return Scan(Ok(v), i);
      }
      var vNew := Wrap64(10 * v + (c as int - ZERO as int));
      if vNew < v {
        return Scan(Err(TooLongInt), i);
      }
      v := vNew;
    }
    return Scan(Ok(v), |b|);
  }

  /** Leading digits below 2^63 are read exactly, up to the first byte that is no digit. */
  lemma {:induction false} UintReads(b: bytes, i: nat)
    requires i <= Leading(b) && 0 < Leading(b) && Number(b[..Leading(b)]) < TWO_TO_63
    ensures UintFrom(b, i, Number(b[..i])) == Scan(Ok(Number(b[..Leading(b)])), Leading(b))
    decreases |b| - i
  {
    if i < Leading(b) {
      NumberNext(b, i);
      hide Wrap64;
      UintReads(b, i + 1);
    }
  }

  lemma {:induction false} UintRange(b: bytes, i: nat, v: int)
    requires i <= |b| && 0 <= v < TWO_TO_63
    ensures var r := UintFrom(b, i, v); (r.result.Ok? ==> 0 <= r.result.value < TWO_TO_63 && r.n >= i) && r.n <= Leading(b[i..]) + i
    ensures UintFrom(b, i, v).result.Ok? ==> UintFrom(b, i, v).n == Leading(b[i..]) + i
    decreases |b| - i
  {
    hide Wrap64;
    if i < |b| {
      var next := Wrap64(10 * v + (b[i] as int - ZERO as int));
      assert b[i..][1..] == b[i + 1..];
      if IsDigit(b[i]) && next >= v { UintRange(b, i + 1, next); }
    }
  }

  predicate Digits(b: bytes) { b != [] && forall i :: 0 <= i < |b| ==> IsDigit(b[i]) }

  /** Only digits are accepted, and no accepted value is negative. */
  lemma ParsedUint(b: bytes)
    ensures ParseUint(b).Ok? ==> Digits(b) && 0 <= ParseUint(b).value < TWO_TO_63
  {
    if b != [] {
      UintRange(b, 0, 0);
      assert b[0..] == b;
    }
  }

  /**
   * A string of digits is read as the number it stands for exactly when that number is below 2^63;
   * above, the overflow test misses some numbers and a different value is returned.
   */
  lemma ParsesExactly(b: bytes)
    requires Digits(b)
    ensures ParseUint(b) == Ok(Number(b)) <==> Number(b) < TWO_TO_63
  {
    ParsedUint(b);
    assert Leading(b) == |b| && b[..|b|] == b && b[..0] == [];
    if Number(b) < TWO_TO_63 { UintReads(b, 0); }
  }

  /** What is printed is read back, for every non-negative 64-bit integer. */
  lemma UintRoundTrip(n: nat)
    requires n < TWO_TO_63
    ensures ParseUint(Decimal(n)) == Ok(n)
  {
    NumberOfDecimal(n);
    ParsesExactly(Decimal(n));
  }

  /** Twenty digits are enough for every 64-bit integer. */
  lemma {:induction false} DecimalLength(n: nat, k: nat)
    requires k > 0 && n < Power10(k)
    ensures |Decimal(n)| <= k
  {
    if n >= 10 { DecimalLength(n / 10, k - 1); }
  }

  function Power10(k: nat): nat { if k == 0 then 1 else 10 * Power10(k - 1) }

  lemma Powers()
    ensures Power10(19) == 10_000_000_000_000_000_000
  {
    assert Power10(2) == 100;
    assert Power10(4) == 10000;
    assert Power10(6) == 1000000;
    assert Power10(8) == 100000000;
    assert Power10(10) == 10000000000;
    assert Power10(12) == 1000000000000;
    assert Power10(14) == 100000000000000;
    assert Power10(16) == 10000000000000000;
    assert Power10(18) == 1000000000000000000;
  }

  datatype Appended = Bytes(dst: bytes) | Panic

  /** Digits are written from the end of a scratch buffer of twenty bytes. */
  method AppendUint(dst: bytes, n: int) returns (r: Appended)
    requires -TWO_TO_63 <= n < TWO_TO_63
    ensures r == if n < 0 then Panic else Bytes(dst + Decimal(n))
  {
    if n < 0 {
      return Panic;
    }
    var buf := new byte[20](_ => 0);
    var i, m := 20, n;
    Powers();
    DecimalLength(n, 19);
    while m >= 10
      invariant 0 <= m && |Decimal(m)| < i <= 20
      invariant Decimal(m) + buf[i..] == Decimal(n)
      decreases m
    {
      i := i - 1;
      var q := m / 10;
      buf[i] := Digit(m - q * 10);
      assert buf[i..] == [Digit(m % 10)] + buf[i + 1..];
      m := q;
    }
    i := i - 1;
    buf[i] := Digit(m);
    assert buf[i..] == [Digit(m)] + buf[i + 1..];
    return Bytes(dst + buf[i..]);
  }

  /** The overflow test misses 25 000 000 000 000 000 000. */
  lemma OverflowMissed()
    ensures var b := ['2' as byte, '5' as byte] + seq(18, _ => ZERO);
      Digits(b) && ParseUint(b) == Ok(6_553_255_926_290_448_384)
  {
    var b := ['2' as byte, '5' as byte] + seq(18, _ => ZERO);
    assert UintFrom(b, 2, 25) == UintFrom(b, 0, 0) by {
      assert UintFrom(b, 1, 2) == UintFrom(b, 0, 0);
    }
    TensOf25();
    ZerosRead(b, 2, 19, 25);
    assert UintFrom(b, 19, 2_500_000_000_000_000_000) == Scan(Ok(6_553_255_926_290_448_384), 20);
  }

  /** `v` followed by `k` zeros. */
  function Tens(v: nat, k: nat): (r: nat)
    ensures r >= v
    decreases k
  {
    if k == 0 then v else Tens(10 * v, k - 1)
  }

  lemma TensOf25()
    ensures Tens(25, 17) == 2_500_000_000_000_000_000
  {
    assert Tens(25, 17) == Tens(2500, 15);
    assert Tens(2500, 15) == Tens(250000, 13);
    assert Tens(250000, 13) == Tens(25000000, 11);
    assert Tens(25000000, 11) == Tens(2500000000, 9);
    assert Tens(2500000000, 9) == Tens(250000000000, 7);
    assert Tens(250000000000, 7) == Tens(25000000000000, 5);
    assert Tens(25000000000000, 5) == Tens(2500000000000000, 3);
    assert Tens(2500000000000000, 3) == Tens(250000000000000000, 1);
    assert Tens(250000000000000000, 1) == 2500000000000000000;
  }

  /** Zeros multiply by ten as long as nothing overflows. */
  lemma {:induction false} ZerosRead(b: bytes, i: nat, j: nat, v: nat)
    requires i <= j <= |b| && (forall k :: i <= k < j ==> b[k] == ZERO) && Tens(v, j - i) < TWO_TO_63
    ensures UintFrom(b, i, v) == UintFrom(b, j, Tens(v, j - i))
    decreases j - i
  {
    if i < j {
      assert 10 * v <= Tens(10 * v, j - i - 1);
      hide Wrap64, Tens;
      ZerosRead(b, i + 1, j, 10 * v);
    }
  }

  // ---------- hexadecimal ----------

  predicate IsHex(c: byte) { HexValue(c) < 16 }

  function LowerHex(v: int): (c: byte)
    requires 0 <= v < 16
    ensures HexValue(c) == v
  {
    if v < 10 then (ZERO as int + v) as byte else ('a' as int + v - 10) as byte
  }

  function Hex(n: nat): (s: bytes)
    ensures s != [] && forall i :: 0 <= i < |s| ==> IsHex(s[i])
  {
    if n < 16 then [LowerHex(n)] else Hex(n / 16) + [LowerHex(n % 16)]
  }

  function HexNumber(s: bytes): nat {
    if s == [] then 0 else 16 * HexNumber(s[..|s| - 1]) + HexValue(s[|s| - 1])
  }

  function Power16(k: nat): nat { if k == 0 then 1 else 16 * Power16(k - 1) }

  lemma Powers16()
    ensures Power16(15) == TWO_TO_60 && Power16(16) == TWO_TO_64
  {
    assert Power16(2) == 0x100;
    assert Power16(4) == 0x1_0000;
    assert Power16(6) == 0x100_0000;
    assert Power16(8) == 0x1_0000_0000;
    assert Power16(10) == 0x100_0000_0000;
    assert Power16(12) == 0x1_0000_0000_0000;
    assert Power16(14) == 0x100_0000_0000_0000;
  }

  /** Hexadecimal numbers are printed in lower case. */
  lemma {:induction false} HexInLowerCase(n: nat, i: nat)
    requires i < |Hex(n)|
    ensures IsDigit(Hex(n)[i]) || 'a' as byte <= Hex(n)[i] <= 'f' as byte
  {
    if n >= 16 && i < |Hex(n / 16)| { HexInLowerCase(n / 16, i); }
  }

  lemma {:induction false} HexPlaces(d: byte, s: bytes)
    ensures HexNumber([d] + s) == HexValue(d) * Power16(|s|) + HexNumber(s)
  {
    var t := [d] + s;
    if s == [] {
      assert t[..0] == [];
    } else {
      var n := |s| - 1;
      assert t[..|t| - 1] == [d] + s[..n];
      HexPlaces(d, s[..n]);
      Distributed(HexValue(d), Power16(n), HexNumber(s[..n]), 16);
      hide Power16, HexNumber;
    }
  }

  lemma {:induction false} HexNumberOfHex(n: nat)
    ensures HexNumber(Hex(n)) == n
  {
    if n >= 16 {
      HexNumberOfHex(n / 16);
      assert Hex(n)[..|Hex(n)| - 1] == Hex(n / 16);
    } else {
      assert [LowerHex(n)][..0] == [];
    }
  }

  /** `k` digits are enough for the numbers below 16 to the power `k`, and reach no further. */
  lemma {:induction false} HexLength(n: nat, k: nat)
    requires k > 0
    ensures |Hex(n)| <= k <==> n < Power16(k)
    decreases n
  {
    if n >= 16 {
      if k == 1 { assert Power16(1) == 16; } else { HexLength(n / 16, k - 1); }
    } else {
      Power16Positive(k - 1);
    }
  }

  lemma {:induction false} Power16Positive(k: nat)
    ensures Power16(k) >= 1
  {
    if k > 0 { Power16Positive(k - 1); }
  }

  lemma {:induction false} HexNumberBound(s: bytes)
    requires forall i :: 0 <= i < |s| ==> IsHex(s[i])
    ensures HexNumber(s) < Power16(|s|)
  {
    if s != [] { HexNumberBound(s[..|s| - 1]); }
  }

  /** The printed length. */
  method EncodedIntHexLen(n: nat) returns (len: nat)
    requires n < TWO_TO_64
    ensures len == |Hex(n)|
  {
    if n == 0 {
      return 1;
    }
    var m := n;
    len := 0;
    while m > 0
      invariant 0 <= m && (m > 0 ==> len + |Hex(m)| == |Hex(n)|)
      invariant m == 0 ==> len == |Hex(n)|
    {
      len := len + 1;
      m := m / 16;
    }
  }

  /** Digits are written from the end of a scratch buffer of sixteen bytes. */
  method AppendIntHex(dst: bytes, n: nat) returns (r: bytes)
    requires n < TWO_TO_64
    ensures r == dst + Hex(n)
  {
    if n == 0 {
      return dst + [ZERO];
    }
    Powers16();
    HexLength(n, 16);
    var tmp := new byte[16](_ => 0);
    var i, m := 16, n;
    while m > 0
      invariant 0 <= i <= 16 && 0 <= m
      invariant m > 0 ==> |Hex(m)| <= i && Hex(m) + tmp[i..] == Hex(n)
      invariant m == 0 ==> tmp[i..] == Hex(n)
      decreases m
    {
      i := i - 1;
      tmp[i] := LowerHex(m % 16);
      assert tmp[i..] == [LowerHex(m % 16)] + tmp[i + 1..];
      m := m / 16;
    }
    return dst + tmp[i..];
  }

  /** How many leading bytes are hexadecimal digits. */
  function LeadingHex(b: bytes): (n: nat)
    ensures n <= |b| && (n < |b| ==> !IsHex(b[n])) && forall i :: 0 <= i < n ==> IsHex(b[i])
  {
    if b == [] || !IsHex(b[0]) then 0 else 1 + LeadingHex(b[1..])
  }

  /** A reader with one byte of lookahead. */
  class Reader {
    var rest: bytes

    constructor (input: bytes)
      ensures rest == input
    {
      rest := input;
    }

    /** Drops a byte; at the end there is none to drop. */
    method Skip()
      modifies this
      ensures rest == if old(rest) == [] then [] else old(rest)[1..]
    {
      if rest != [] { rest := rest[1..]; }
    }

    /**
     * Reads up to fifteen digits and leaves the first byte that is none unread. More digits, or none,
     * are an error, and the byte that shows it is dropped.
     */
    method ReadHexInt() returns (r: Result)
      modifies this
      ensures var s, h := old(rest), LeadingHex(old(rest));
        if h == 0 then r == (if s == [] then Err(EndOfInput) else Err(EmptyHexNum)) && rest == (if s == [] then [] else s[1..])
        else if h <= MAX_HEX_INT_CHARS then r == Ok(HexNumber(s[..h])) && rest == s[h..]
        else r == Err(TooLargeHexNum) && rest == s[16..]
      ensures r.Ok? ==> 0 <= r.value < TWO_TO_60
    {
      ghost var s := rest;
      var n, i := 0, 0;
      assert HexNumber([]) == 0 && s[..0] == [];
      hide HexNumber, LeadingHex;
      while true
        invariant i <= LeadingHex(s) && i <= MAX_HEX_INT_CHARS && rest == s[i..] && n == HexNumber(s[..i])
        decreases |rest|
      {
        HexBound(s, i);
        if rest == [] {
          Skip();
          if i > 0 { return Ok(n); }
          return Err(EndOfInput);
        }
        var k := HexValue(rest[0]);
        if k == 16 {
          if i == 0 {
            Skip();
            return Err(EmptyHexNum);
          }
          return Ok(n);
        }
        if i >= MAX_HEX_INT_CHARS {
          Skip();
          return Err(TooLargeHexNum);
        }
        Skip();
        HexNext(s, i);
        n := n * 16 + k;
        i := i + 1;
      }
    }
  }

  lemma HexNext(s: bytes, i: nat)
    requires i < |s|
    ensures HexNumber(s[..i + 1]) == 16 * HexNumber(s[..i]) + HexValue(s[i])
  {
    assert s[..i + 1][..i] == s[..i];
  }

  lemma HexBound(s: bytes, i: nat)
    requires i <= LeadingHex(s) && i <= MAX_HEX_INT_CHARS
    ensures HexNumber(s[..i]) < TWO_TO_60
  {
    Powers16();
    HexNumberBound(s[..i]);
    Power16Grows(i, 15);
  }

  lemma {:induction false} Power16Grows(i: nat, j: nat)
    requires i <= j
    ensures Power16(i) <= Power16(j)
    decreases j
  {
    if i < j { Power16Grows(i, j - 1); }
  }

  /** Printed digits in front of anything that is no digit are what the reader takes, for numbers below 2^60. */
  lemma HexRoundTrip(n: nat, rest: bytes)
    requires n < TWO_TO_60 && (rest == [] || !IsHex(rest[0]))
    ensures var s := Hex(n) + rest;
      LeadingHex(s) == |Hex(n)| <= MAX_HEX_INT_CHARS && HexNumber(s[..LeadingHex(s)]) == n && s[LeadingHex(s)..] == rest
  {
    Powers16();
    HexLength(n, 15);
    HexNumberOfHex(n);
    var s, h := Hex(n) + rest, |Hex(n)|;
    assert s[..h] == Hex(n) && s[h..] == rest;
    assert forall i :: 0 <= i < h ==> s[i] == Hex(n)[i];
    assert h < |s| ==> s[h] == rest[0];
    assert LeadingHex(s) == h;
  }
}
