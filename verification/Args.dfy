/** Query arguments and cookies: scanning, printing, and the key-value lists they are kept in. */
module Args {

  import opened ByteCodec

  const AMP: byte := '&' as byte
  const SEMICOLON: byte := ';' as byte
  const QUOTE: byte := '"' as byte

  /** One argument; `noValue` when it was written without an equals sign. */
  datatype KV = KV(key: bytes, value: bytes, noValue: bool)

  predicate Nonempty(kv: KV) { |kv.key| > 0 || |kv.value| > 0 }

  // ---------- query strings ----------

  /** The argument a segment between two ampersands stands for. */
  function QuerySegment(seg: bytes): KV {
    var e := First(seg, EQUALS);
    if e < |seg| then KV(Decode(seg[..e], true), Decode(seg[e + 1..], true), false)
    else KV(Decode(seg, true), [], true)
  }

  function Rest(b: bytes, sep: byte): (r: bytes)
    ensures b != [] ==> |r| < |b|
  {
    var n := First(b, sep);
    if n < |b| then b[n + 1..] else []
  }

  function Only(kv: KV): seq<KV> { if Nonempty(kv) then [kv] else [] }

  /** The arguments of a query string, without those that are empty altogether. */
  function ParseQuery(b: bytes): seq<KV>
    decreases |b|
  {
    if b == [] then [] else Only(QuerySegment(b[..First(b, AMP)])) + ParseQuery(Rest(b, AMP))
  }

  function PrintArg(kv: KV): bytes { QuoteArg(kv.key) + if kv.noValue then [] else [EQUALS] + QuoteArg(kv.value) }

  function PrintQuery(args: seq<KV>): bytes {
    if args == [] then []
    else if |args| == 1 then PrintArg(args[0])
    else PrintArg(args[0]) + [AMP] + PrintQuery(args[1..])
  }

  /** An argument without a value has an empty one. */
  function Settled(kv: KV): KV { if kv.noValue then kv.(value := []) else kv }

  function Survivors(args: seq<KV>): seq<KV> {
    if args == [] then [] else Only(Settled(args[0])) + Survivors(args[1..])
  }

  /** Quoting leaves neither separator in an argument. */
  lemma {:induction false} QuotedBytes(s: bytes)
    ensures AMP !in QuoteArg(s) && EQUALS !in QuoteArg(s)
  {
    if s != [] { QuotedBytes(s[1..]); }
  }

  lemma {:induction false} FirstAfter(p: bytes, c: byte, rest: bytes)
    requires c !in p
    ensures First(p + rest, c) == |p| + First(rest, c)
  {
    if p == [] {
      assert p + rest == rest;
    } else {
      assert (p + rest)[1..] == p[1..] + rest;
      FirstAfter(p[1..], c, rest);
    }
  }

  /** Reading a printed argument. */
  lemma SegmentRoundTrip(kv: KV)
    ensures QuerySegment(PrintArg(kv)) == Settled(kv)
    ensures AMP !in PrintArg(kv)
    ensures PrintArg(kv) == [] ==> !Nonempty(Settled(kv))
  {
    QuotedBytes(kv.key);
    QuotedBytes(kv.value);
    DecodeQuotedArg(kv.key);
    DecodeQuotedArg(kv.value);
    assert Decode([], true) == [] && First([EQUALS] + QuoteArg(kv.value), EQUALS) == 0;
    hide QuoteArg, First, Decode;
    var q := QuoteArg(kv.key);
    if kv.noValue {
      FirstAfter(q, EQUALS, []);
      assert PrintArg(kv) == q && q + [] == q;
    } else {
      var rest := [EQUALS] + QuoteArg(kv.value);
      FirstAfter(q, EQUALS, rest);
      assert (q + rest)[..|q|] == q && (q + rest)[|q| + 1..] == QuoteArg(kv.value);
    }
  }

  /** Parsing a printed list gives the list back, each no-value flag included, minus the empty arguments. */
  lemma {:induction false} QueryRoundTrip(args: seq<KV>)
    ensures ParseQuery(PrintQuery(args)) == Survivors(args)
  {
    if args != [] {
      var p := PrintArg(args[0]);
      SegmentRoundTrip(args[0]);
      if |args| == 1 {
        LastSegment(p);
      } else {
        QueryRoundTrip(args[1..]);
        FirstSegment(p, PrintQuery(args[1..]));
      }
    }
  }

  lemma LastSegment(p: bytes)
    requires AMP !in p
    ensures ParseQuery(p) == if p == [] then [] else Only(QuerySegment(p))
  {
    FirstAfter(p, AMP, []);
    hide First, QuerySegment;
    assert p + [] == p && p[..|p|] == p;
  }

  lemma FirstSegment(p: bytes, tail: bytes)
    requires AMP !in p
    ensures ParseQuery(p + [AMP] + tail) == Only(QuerySegment(p)) + ParseQuery(tail)
  {
    FirstAfter(p, AMP, [AMP] + tail);
    hide First, QuerySegment;
    var b := p + [AMP] + tail;
    assert b == p + ([AMP] + tail);
    assert b[..|p|] == p && b[|p| + 1..] == tail;
  }

  lemma {:induction false} ParsedSurvive(b: bytes)
    ensures Survivors(ParseQuery(b)) == ParseQuery(b)
    decreases |b|
  {
    if b != [] {
      ParsedSurvive(Rest(b, AMP));
      var kv, tail := QuerySegment(b[..First(b, AMP)]), ParseQuery(Rest(b, AMP));
      hide First, Decode, Rest;
      assert Settled(kv) == kv && [] + tail == tail;
      if Nonempty(kv) { assert ([kv] + tail)[0] == kv && ([kv] + tail)[1..] == tail; }
    }
  }

  /** Printing what was parsed and parsing it again changes nothing. */
  lemma QueryStable(b: bytes)
    ensures ParseQuery(PrintQuery(ParseQuery(b))) == ParseQuery(b)
  {
    QueryRoundTrip(ParseQuery(b));
    ParsedSurvive(b);
  }

  // ---------- what the parser reads ----------

  /** The first equals sign separates: it is in the key of no argument, and may be in the value. */
  lemma FirstEquals(key: bytes, value: bytes)
    requires EQUALS !in key
    ensures QuerySegment(key + [EQUALS] + value) == KV(Decode(key, true), Decode(value, true), false)
  {
    FirstAfter(key, EQUALS, [EQUALS] + value);
    hide Decode;
    var seg := key + [EQUALS] + value;
    assert seg == key + ([EQUALS] + value) && seg[..|key|] == key && seg[|key| + 1..] == value;
  }

  lemma NoEquals(seg: bytes)
    requires EQUALS !in seg
    ensures QuerySegment(seg) == KV(Decode(seg, true), [], true)
  {
    FirstAfter(seg, EQUALS, []);
    hide Decode;
    assert seg + [] == seg;
  }

  function JoinQuery(segs: seq<bytes>): bytes {
    if segs == [] then [] else if |segs| == 1 then segs[0] else segs[0] + [AMP] + JoinQuery(segs[1..])
  }

  function ReadSegments(segs: seq<bytes>): seq<KV> {
    if segs == [] then [] else Only(QuerySegment(segs[0])) + ReadSegments(segs[1..])
  }

  /** Segments with ampersands between them are read one by one, those that are empty altogether left out. */
  lemma {:induction false} JoinedQuery(segs: seq<bytes>)
    requires forall i :: 0 <= i < |segs| ==> AMP !in segs[i]
    ensures ParseQuery(JoinQuery(segs)) == ReadSegments(segs)
  {
    if segs != [] {
      if |segs| == 1 {
        LastSegment(segs[0]);
        NoEquals([]);
        hide QuerySegment, ParseQuery;
        assert Decode([], true) == [];
        assert ReadSegments(segs) == Only(QuerySegment(segs[0])) + [];
      } else {
        JoinedQuery(segs[1..]);
        FirstSegment(segs[0], JoinQuery(segs[1..]));
      }
    }
  }

  // ---------- cookies ----------

  function TrimLeft(s: bytes): bytes { if s != [] && s[0] == SPACE then TrimLeft(s[1..]) else s }

  function TrimRight(s: bytes): bytes { if s != [] && s[|s| - 1] == SPACE then TrimRight(s[..|s| - 1]) else s }

  /** Without surrounding spaces and, when asked to, without one pair of quotes. */
  function DecodeCookie(s: bytes, skipQuotes: bool): bytes {
    var t := TrimRight(TrimLeft(s));
    if skipQuotes && |t| > 1 && t[0] == QUOTE && t[|t| - 1] == QUOTE then t[1..|t| - 1] else t
  }

  function CookieSegment(seg: bytes): KV {
    var e := First(seg, EQUALS);
    if e < |seg| then KV(DecodeCookie(seg[..e], false), DecodeCookie(seg[e + 1..], true), false)
    else KV([], DecodeCookie(seg, true), false)
  }

  function ParseCookies(b: bytes): seq<KV>
    decreases |b|
  {
    if b == [] then [] else Only(CookieSegment(b[..First(b, SEMICOLON)])) + ParseCookies(Rest(b, SEMICOLON))
  }

  // ---------- the scanners ----------

  /** One step of the argument scanner: the segment up to the next ampersand. */
  method ScanQuery(b: bytes) returns (kv: KV, rest: bytes)
    requires b != []
    ensures kv == QuerySegment(b[..First(b, AMP)]) && rest == Rest(b, AMP)
  {
    var isKey, k, key := true, 0, [];
    for i := 0 to |b|
      invariant AMP !in b[..i] && k <= i
      invariant isKey ==> EQUALS !in b[..i]
      invariant !isKey ==> 0 < k && EQUALS !in b[..k - 1] && b[k - 1] == EQUALS && key == Decode(b[..k - 1], true)
    {
      if b[i] == EQUALS {
        if isKey {
          isKey := false;
          key := DecodeAppend([], b[..i], true);
          k := i + 1;
        }
      } else if b[i] == AMP {
        FirstIs(b, AMP, i);
        assert !isKey ==> b[..i][..k - 1] == b[..k - 1];
        kv := TakeSegment(b[..i], isKey, k, key);
        return kv, b[i + 1..];
      }
    }
    FirstIs(b, AMP, |b|);
    assert b[..|b|] == b;
    kv := TakeSegment(b, isKey, k, key);
    rest := [];
  }

  /** The end of a segment: what is not yet decoded is the key, or the value. */
  method TakeSegment(seg: bytes, isKey: bool, k: nat, key: bytes) returns (kv: KV)
    requires k <= |seg|
    requires isKey ==> EQUALS !in seg
    requires !isKey ==> 0 < k && EQUALS !in seg[..k - 1] && seg[k - 1] == EQUALS && key == Decode(seg[..k - 1], true)
    ensures kv == QuerySegment(seg)
  {
    if isKey {
      FirstIs(seg, EQUALS, |seg|);
      var name := DecodeAppend([], seg, true);
      kv := KV(name, [], true);
    } else {
      FirstIs(seg, EQUALS, k - 1);
      var value := DecodeAppend([], seg[k..], true);
      kv := KV(key, value, false);
    }
  }

  method AppendArg(dst: bytes, kv: KV) returns (r: bytes)
    ensures r == dst + PrintArg(kv)
  {
    assert QuoteArg([]) == [];
    hide QuoteArg;
    r := AppendQuotedArg(dst, kv.key);
    if !kv.noValue {
      r := r + [EQUALS];
      if |kv.value| > 0 {
        r := AppendQuotedArg(r, kv.value);
      }
    }
  }

  /** Appends the arguments to `dst`, ampersands between them. */
  method AppendQuery(dst: bytes, args: seq<KV>) returns (r: bytes)
    ensures r == dst + PrintQuery(args)
  {
    r := dst;
    for i := 0 to |args|
      invariant r + PrintQuery(args[i..]) == dst + PrintQuery(args)
    {
      PrintNext(args, i);
      hide PrintQuery, PrintArg;
      ghost var before := r;
      r := AppendArg(r, args[i]);
      if i + 1 < |args| {
        r := r + [AMP];
      }
      Regrouped(before, PrintArg(args[i]), if i + 1 < |args| then [AMP] else [], PrintQuery(args[i + 1..]));
    }
  }

  lemma Regrouped(r: bytes, a: bytes, b: bytes, c: bytes)
    ensures r + (a + b + c) == r + a + b + c && r + a + [] == r + a
  {
  }

  lemma PrintNext(args: seq<KV>, i: nat)
    requires i < |args|
    ensures PrintQuery(args[i..]) == PrintArg(args[i]) + (if i + 1 < |args| then [AMP] else []) + PrintQuery(args[i + 1..])
  {
    assert args[i..][1..] == args[i + 1..];
  }

  /** Trims spaces from both ends, then a pair of quotes when asked to. */
  method DecodeCookieArg(src: bytes, skipQuotes: bool) returns (r: bytes)
    ensures r == DecodeCookie(src, skipQuotes)
  {
    r := src;
    while |r| > 0 && r[0] == SPACE
      invariant TrimLeft(r) == TrimLeft(src)
    {
      r := r[1..];
    }
    while |r| > 0 && r[|r| - 1] == SPACE
      invariant TrimRight(r) == TrimRight(TrimLeft(src))
    {
      r := r[..|r| - 1];
    }
    if skipQuotes && |r| > 1 && r[0] == QUOTE && r[|r| - 1] == QUOTE {
      r := r[1..|r| - 1];
    }
  }

  /** One step of the cookie scanner: the segment up to the next semicolon. */
  method ScanCookie(b: bytes) returns (key: bytes, value: bytes, rest: bytes)
    requires b != []
    ensures KV(key, value, false) == CookieSegment(b[..First(b, SEMICOLON)]) && rest == Rest(b, SEMICOLON)
  {
    var isKey, k := true, 0;
    key := [];
    for i := 0 to |b|
      invariant SEMICOLON !in b[..i] && k <= i
      invariant isKey ==> EQUALS !in b[..i] && k == 0 && key == []
      invariant !isKey ==> 0 < k && EQUALS !in b[..k - 1] && b[k - 1] == EQUALS && key == DecodeCookie(b[..k - 1], false)
    {
      if b[i] == EQUALS {
        if isKey {
          isKey := false;
          key := DecodeCookieArg(b[..i], false);
          k := i + 1;
        }
      } else if b[i] == SEMICOLON {
        FirstIs(b, SEMICOLON, i);
        assert !isKey ==> b[..i][..k - 1] == b[..k - 1];
        assert b[..i][k..] == b[k..i];
        CookieParts(b[..i], isKey, k);
        value := DecodeCookieArg(b[k..i], true);
        return key, value, b[i + 1..];
      }
    }
    FirstIs(b, SEMICOLON, |b|);
    assert b[..|b|] == b;
    CookieParts(b, isKey, k);
    value := DecodeCookieArg(b[k..], true);
    rest := [];
  }

  /** Where the value of a cookie segment starts. */
  lemma CookieParts(seg: bytes, isKey: bool, k: nat)
    requires k <= |seg|
    requires isKey ==> EQUALS !in seg && k == 0
    requires !isKey ==> 0 < k && EQUALS !in seg[..k - 1] && seg[k - 1] == EQUALS
    ensures CookieSegment(seg) ==
            KV(if isKey then [] else DecodeCookie(seg[..k - 1], false), DecodeCookie(seg[k..], true), false)
  {
    hide DecodeCookie;
    if isKey {
      FirstIs(seg, EQUALS, |seg|);
      assert seg[0..] == seg;
    } else {
      FirstIs(seg, EQUALS, k - 1);
    }
  }
}
