/** Percent-encoding of paths and query arguments, and its decoders (sections 2.1 and 2.3 of RFC 3986). */
module ByteCodec {

  newtype byte = b: int | 0 <= b < 256
  type bytes = seq<byte>

  const SLASH: byte := '/' as byte
  const DOT: byte := '.' as byte
  const PERCENT: byte := '%' as byte
  const PLUS: byte := '+' as byte
  const SPACE: byte := ' ' as byte
  const STAR: byte := '*' as byte
  const EQUALS: byte := '=' as byte

  /** The position of the first `c`, or the length. */
  function First(s: bytes, c: byte): (n: nat)
    ensures n <= |s| && (n < |s| ==> s[n] == c) && forall i :: 0 <= i < n ==> s[i] != c
  {
    if s == [] || s[0] == c then 0 else 1 + First(s[1..], c)
  }

  /** What makes a position the first one. */
  lemma FirstIs(s: bytes, c: byte, n: nat)
    requires n <= |s| && (n < |s| ==> s[n] == c) && forall i :: 0 <= i < n ==> s[i] != c
    ensures First(s, c) == n
  {
    hide First;
    var m := First(s, c);
  }

  predicate IsUpper(c: byte) { 'A' as byte <= c <= 'Z' as byte }
  predicate IsLower(c: byte) { 'a' as byte <= c <= 'z' as byte }
  predicate IsDigit(c: byte) { '0' as byte <= c <= '9' as byte }

  /** The value of a hexadecimal digit, 16 for any other byte. */
  function HexValue(c: byte): (v: int)
    ensures 0 <= v <= 16
  {
    if IsDigit(c) then (c as int) - ('0' as int)
    else if 'a' as byte <= c <= 'f' as byte then (c as int) - ('a' as int) + 10
    else if 'A' as byte <= c <= 'F' as byte then (c as int) - ('A' as int) + 10
    else 16
  }

  function UpperHex(v: int): (c: byte)
    requires 0 <= v < 16
    ensures HexValue(c) == v && c != PERCENT && c != PLUS
  {
    if v < 10 then ('0' as int + v) as byte else ('A' as int + v - 10) as byte
  }

  function UpperOf(c: byte): byte { if IsLower(c) then (c as int - 32) as byte else c }

  /** The digits are those that printing yields, in either case, and no others have a value. */
  lemma HexDigits(c: byte)
    ensures HexValue(c) < 16 ==> UpperHex(HexValue(c)) == UpperOf(c)
    ensures HexValue(c) == 16 <==> forall v :: 0 <= v < 16 ==> UpperHex(v) != UpperOf(c)
  {
  }

  /** The bytes a query argument must escape: all but the unreserved ones. */
  predicate ArgEscaped(c: byte) {
    !(IsUpper(c) || IsLower(c) || IsDigit(c)
      || c == '-' as byte || c == '_' as byte || c == DOT || c == '~' as byte)
  }

  /** A path may keep some reserved bytes as well. */
  predicate PathEscaped(c: byte) {
    ArgEscaped(c)
    && !(c == '$' as byte || c == '&' as byte || c == PLUS || c == ',' as byte || c == SLASH
         || c == ':' as byte || c == ';' as byte || c == '=' as byte || c == '@' as byte)
  }

  function Escape(c: byte): bytes { [PERCENT, UpperHex(c as int / 16), UpperHex(c as int % 16)] }

  // ---------- quoting ----------

  /** What one byte of an argument is quoted as. */
  function ArgByte(c: byte): bytes { if c == SPACE then [PLUS] else if ArgEscaped(c) then Escape(c) else [c] }

  function QuoteArg(s: bytes): bytes { if s == [] then [] else ArgByte(s[0]) + QuoteArg(s[1..]) }

  function PathByte(c: byte): bytes { if PathEscaped(c) then Escape(c) else [c] }

  function QuotePathBytes(s: bytes): bytes { if s == [] then [] else PathByte(s[0]) + QuotePathBytes(s[1..]) }

  /** A lone star is left alone. */
  function QuotePath(s: bytes): bytes { if s == [STAR] then [STAR] else QuotePathBytes(s) }

  lemma {:induction false} QuoteArgAppend(s: bytes, t: bytes)
    ensures QuoteArg(s + t) == QuoteArg(s) + QuoteArg(t)
  {
    if s == [] { assert s + t == t; }
    else { assert (s + t)[1..] == s[1..] + t; QuoteArgAppend(s[1..], t); }
  }

  lemma {:induction false} QuotePathAppend(s: bytes, t: bytes)
    ensures QuotePathBytes(s + t) == QuotePathBytes(s) + QuotePathBytes(t)
  {
    if s == [] { assert s + t == t; }
    else { assert (s + t)[1..] == s[1..] + t; QuotePathAppend(s[1..], t); }
  }

  /** One more byte. */
  lemma QuoteNext(s: bytes, i: nat)
    requires i < |s|
    ensures QuoteArg(s[..i + 1]) == QuoteArg(s[..i]) + ArgByte(s[i])
    ensures QuotePathBytes(s[..i + 1]) == QuotePathBytes(s[..i]) + PathByte(s[i])
  {
    assert s[..i + 1] == s[..i] + [s[i]] && [s[i]][1..] == [];
    QuoteArgAppend(s[..i], [s[i]]);
    QuotePathAppend(s[..i], [s[i]]);
  }

  lemma Grouped(a: bytes, b: bytes, c: bytes)
    ensures a + b + c == a + (b + c)
  {
  }

  method AppendQuotedArg(dst: bytes, src: bytes) returns (r: bytes)
    ensures r == dst + QuoteArg(src)
  {
    r := dst;
    for i := 0 to |src|
      invariant r == dst + QuoteArg(src[..i])
    {
      var c := src[i];
      QuoteNext(src, i);
      hide QuoteArg, QuotePathBytes, ArgEscaped, UpperHex;
      ghost var before, q := r, QuoteArg(src[..i]);
      if c == SPACE { r := r + [PLUS]; }
      else if ArgEscaped(c) { r := r + [PERCENT, UpperHex(c as int / 16), UpperHex(c as int % 16)]; }
      else { r := r + [c]; }
      assert r == before + ArgByte(c);
      Grouped(dst, q, ArgByte(c));
    }
    assert src[..|src|] == src;
  }

  method AppendQuotedPath(dst: bytes, src: bytes) returns (r: bytes)
    ensures r == dst + QuotePath(src)
  {
    if |src| == 1 && src[0] == STAR { return dst + [STAR]; }
    r := dst;
    for i := 0 to |src|
      invariant r == dst + QuotePathBytes(src[..i])
    {
      var c := src[i];
      QuoteNext(src, i);
      hide QuoteArg, QuotePathBytes, PathEscaped, UpperHex;
      Grouped(dst, QuotePathBytes(src[..i]), PathByte(c));
      if PathEscaped(c) { r := r + [PERCENT, UpperHex(c as int / 16), UpperHex(c as int % 16)]; }
      else { r := r + [c]; }
    }
    assert src[..|src|] == src;
  }

  // ---------- decoding ----------

  /** Decodes escapes, and plus signs when asked to. An escape cut short by the end of the input
      leaves the rest as it is; a malformed one leaves its percent sign. */
  function Decode(s: bytes, plus: bool): bytes
    decreases |s|
  {
    if s == [] then []
    else if s[0] == PERCENT then
      if |s| <= 2 then s
      else if HexValue(s[1]) == 16 || HexValue(s[2]) == 16 then [PERCENT] + Decode(s[1..], plus)
      else [(HexValue(s[1]) * 16 + HexValue(s[2])) as byte] + Decode(s[3..], plus)
    else if plus && s[0] == PLUS then [SPACE] + Decode(s[1..], plus)
    else [s[0]] + Decode(s[1..], plus)
  }

  /** Text without encoded characters decodes to itself: the fast path is the slow path. */
  lemma {:induction false} DecodePlain(s: bytes, plus: bool)
    requires PERCENT !in s && (plus ==> PLUS !in s)
    ensures Decode(s, plus) == s
  {
    if s != [] { DecodePlain(s[1..], plus); }
  }

  method DecodeAppend(dst: bytes, src: bytes, plus: bool) returns (r: bytes)
    ensures r == dst + Decode(src, plus)
  {
    if PERCENT !in src && (!plus || PLUS !in src) {
      DecodePlain(src, plus);
      return dst + src;
    }
    r := dst;
    var i := 0;
    while i < |src|
      invariant 0 <= i <= |src|
      invariant r + Decode(src[i..], plus) == dst + Decode(src, plus)
    {
      var c, next, out := src[i], i + 1, src[i];
      if c == PERCENT {
        if i + 2 >= |src| { return r + src[i..]; }
        var x2 := HexValue(src[i + 2]);
        var x1 := HexValue(src[i + 1]);
        if x1 != 16 && x2 != 16 {
          next, out := i + 3, (x1 * 16 + x2) as byte;
        }
      } else if plus && c == PLUS {
        out := SPACE;
      }
      DecodeStep(src, i, plus, out, next);
      Regroup(r, out, Decode(src[next..], plus));
      r := r + [out];
      i := next;
    }
  }

  lemma Regroup(r: bytes, c: byte, rest: bytes)
    ensures r + [c] + rest == r + ([c] + rest)
  {
  }

  /** One step of the decoding loop. */
  lemma DecodeStep(src: bytes, i: nat, plus: bool, out: byte, next: nat)
    requires i < |src| && (src[i] == PERCENT ==> i + 2 < |src|)
    requires if src[i] == PERCENT && HexValue(src[i + 1]) != 16 && HexValue(src[i + 2]) != 16
             then next == i + 3 && out as int == HexValue(src[i + 1]) * 16 + HexValue(src[i + 2])
             else next == i + 1 && out == if plus && src[i] == PLUS then SPACE else src[i]
    ensures Decode(src[i..], plus) == [out] + Decode(src[next..], plus)
  {
    var rest := src[i..];
    assert rest[1..] == src[i + 1..];
    if src[i] == PERCENT { assert rest[3..] == src[i + 3..]; }
  }

  /** Decoding one escaped byte. */
  lemma DecodeEscape(c: byte, rest: bytes, plus: bool)
    ensures Decode(Escape(c) + rest, plus) == [c] + Decode(rest, plus)
  {
    var s := Escape(c) + rest;
    assert s[3..] == rest;
  }

  /** Decoding undoes quoting on every byte string. */
  lemma {:induction false} DecodeQuotedArg(s: bytes)
    ensures Decode(QuoteArg(s), true) == s
  {
    if s != [] {
      var c, rest := s[0], QuoteArg(s[1..]);
      DecodeQuotedArg(s[1..]);
      if c == SPACE { assert ([PLUS] + rest)[1..] == rest; }
      else if ArgEscaped(c) { DecodeEscape(c, rest, true); }
      else { assert ([c] + rest)[1..] == rest; }
    }
  }

  lemma {:induction false} DecodeQuotedPath(s: bytes)
    ensures Decode(QuotePath(s), false) == s
  {
    if s == [STAR] { DecodePlain(s, false); } else { DecodeQuotedPathBytes(s); }
  }

  lemma {:induction false} DecodeQuotedPathBytes(s: bytes)
    ensures Decode(QuotePathBytes(s), false) == s
  {
    if s != [] {
      var c, rest := s[0], QuotePathBytes(s[1..]);
      DecodeQuotedPathBytes(s[1..]);
      if PathEscaped(c) { DecodeEscape(c, rest, false); } else { assert ([c] + rest)[1..] == rest; }
    }
  }

  // ---------- what decoding and quoting mean ----------

  /** The value of a hexadecimal digit in either case. */
  ghost predicate DigitFor(c: byte, v: int) {
    || (0 <= v < 10 && c as int == '0' as int + v)
    || (10 <= v < 16 && (c as int == 'a' as int + v - 10 || c as int == 'A' as int + v - 10))
  }

  /** An escape of `c` stands at the start of the text. */
  ghost predicate EscapeOf(s: bytes, c: byte) {
    |s| >= 3 && s[0] == PERCENT && DigitFor(s[1], c as int / 16) && DigitFor(s[2], c as int % 16)
  }

  /** The text reads as `e`: escapes with digits of either case stand for their byte, every other byte for itself,
      a percent sign without two digits behind it included. */
  ghost predicate ReadsAs(s: bytes, e: bytes)
    decreases |s|
  {
    if s == [] then e == []
    else if exists c :: EscapeOf(s, c) then e != [] && EscapeOf(s, e[0]) && ReadsAs(s[3..], e[1..])
    else e != [] && e[0] == s[0] && ReadsAs(s[1..], e[1..])
  }

  lemma EscapeValue(s: bytes)
    ensures (exists c :: EscapeOf(s, c)) <==> |s| >= 3 && s[0] == PERCENT && HexValue(s[1]) < 16 && HexValue(s[2]) < 16
    ensures forall c :: EscapeOf(s, c) ==> c as int == HexValue(s[1]) * 16 + HexValue(s[2])
  {
    if |s| >= 3 && s[0] == PERCENT && HexValue(s[1]) < 16 && HexValue(s[2]) < 16 {
      var c := (HexValue(s[1]) * 16 + HexValue(s[2])) as byte;
      assert c as int / 16 == HexValue(s[1]) && c as int % 16 == HexValue(s[2]);
      assert EscapeOf(s, c);
    }
  }

  /** Without plus signs decoding gives exactly what the text reads as. */
  lemma {:induction false} DecodesExactly(s: bytes, e: bytes)
    ensures Decode(s, false) == e <==> ReadsAs(s, e)
    decreases |s|
  {
    EscapeValue(s);
    if s != [] {
      hide EscapeOf;
      if exists c :: EscapeOf(s, c) {
        var v := (HexValue(s[1]) * 16 + HexValue(s[2])) as byte;
        DecodesExactly(s[3..], if e == [] then [] else e[1..]);
        assert e != [] ==> e == [e[0]] + e[1..];
        assert EscapeOf(s, v);
      } else {
        if |s| == 2 { assert s[1..][1..] == []; assert s == [s[0]] + s[1..]; }
        DecodesExactly(s[1..], if e == [] then [] else e[1..]);
        assert e != [] ==> e == [e[0]] + e[1..];
      }
    }
  }

  function PlusByte(c: byte): byte { if c == PLUS then SPACE else c }

  function PlusToSpace(s: bytes): (r: bytes)
    ensures |r| == |s| && forall i :: 0 <= i < |s| ==> r[i] == PlusByte(s[i])
  {
    seq(|s|, i requires 0 <= i < |s| => PlusByte(s[i]))
  }

  lemma PlusSlice(s: bytes, k: nat)
    requires k <= |s|
    ensures PlusToSpace(s)[k..] == PlusToSpace(s[k..])
  {
  }

  predicate CutOffPlus(s: bytes) { |s| >= 2 && s[|s| - 2..] == [PERCENT, PLUS] }

  lemma Headed(x: byte, a: bytes, b: bytes)
    ensures [x] + a == [x] + b <==> a == b
  {
    assert ([x] + a)[1..] == a && ([x] + b)[1..] == b;
  }

  /** Only the last two bytes matter. */
  lemma CutOffLater(s: bytes, k: nat)
    requires k <= |s| && !(|s| >= 2 && k >= |s| - 1 && s[|s| - 2] == PERCENT && s[|s| - 1] == PLUS)
    ensures CutOffPlus(s) <==> CutOffPlus(s[k..])
  {
    if |s[k..]| >= 2 { assert s[k..][|s[k..]| - 2..] == s[|s| - 2..]; }
  }

  /** A plus sign means a space everywhere, except right behind a percent sign at the very end. */
  lemma {:induction false} PlusMeansSpace(s: bytes)
    ensures Decode(s, true) == Decode(PlusToSpace(s), false) <==> !CutOffPlus(s)
    decreases |s|
  {
    var t := PlusToSpace(s);
    if s != [] && s[0] == PERCENT && |s| <= 2 {
      assert Decode(s, true) == s && Decode(t, false) == t;
      if |s| == 2 {
        assert s == [PERCENT, s[1]] && t == [PERCENT, PlusByte(s[1])];
        assert s[0..] == s;
      }
    } else if s != [] {
      var k := if s[0] == PERCENT && HexValue(s[1]) < 16 && HexValue(s[2]) < 16 then 3 else 1;
      var c := if k == 3 then (HexValue(s[1]) * 16 + HexValue(s[2])) as byte else PlusByte(s[0]);
      PlusSlice(s, k);
      assert Decode(s, true) == [c] + Decode(s[k..], true) && Decode(t, false) == [c] + Decode(t[k..], false);
      hide Decode;
      PlusMeansSpace(s[k..]);
      CutOffLater(s, k);
      Headed(c, Decode(s[k..], true), Decode(t[k..], false));
    }
  }

  /** `%+` stays as it is. */
  lemma CutOffPlusStays()
    ensures var s: bytes := [PERCENT, PLUS]; Decode(s, true) == s != Decode(PlusToSpace(s), false)
  {
    var s: bytes := [PERCENT, PLUS];
    assert s[0..] == s;
    PlusMeansSpace(s);
  }

  /** The unreserved characters of section 2.3 of RFC 3986. */
  predicate Unreserved(c: byte) {
    || 'a' as byte <= c <= 'z' as byte || 'A' as byte <= c <= 'Z' as byte || '0' as byte <= c <= '9' as byte
    || c in ['-' as byte, '.' as byte, '_' as byte, '~' as byte]
  }

  /** What a path keeps besides. */
  predicate PathKept(c: byte) {
    Unreserved(c) || c in ['$' as byte, '&' as byte, '+' as byte, ',' as byte, '/' as byte, ':' as byte, ';' as byte, '=' as byte, '@' as byte]
  }

  /** Quoting leaves a text alone exactly when it consists of characters that need no quoting. */
  lemma {:induction false} QuoteArgFixed(s: bytes)
    ensures |QuoteArg(s)| >= |s|
    ensures QuoteArg(s) == s <==> forall i :: 0 <= i < |s| ==> Unreserved(s[i])
  {
    if s != [] {
      QuoteArgFixed(s[1..]);
      assert s == [s[0]] + s[1..];
      if QuoteArg(s) == s { assert QuoteArg(s)[0] == s[0] && QuoteArg(s)[1..] == s[1..]; }
    }
  }

  lemma {:induction false} QuotePathFixed(s: bytes)
    ensures |QuotePathBytes(s)| >= |s|
    ensures QuotePathBytes(s) == s <==> forall i :: 0 <= i < |s| ==> PathKept(s[i])
  {
    if s != [] {
      QuotePathFixed(s[1..]);
      assert s == [s[0]] + s[1..];
      if QuotePathBytes(s) == s { assert QuotePathBytes(s)[0] == s[0] && QuotePathBytes(s)[1..] == s[1..]; }
    }
  }

  lemma QuotePathExactly(s: bytes)
    ensures QuotePath(s) == s <==> s == [STAR] || forall i :: 0 <= i < |s| ==> PathKept(s[i])
  {
    QuotePathFixed(s);
  }
}
