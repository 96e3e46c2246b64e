/** What the cookie parser reads: which bytes decoding removes, and exactly which cookies survive printing and parsing. */
module CookieText {

  import opened ByteCodec
  import opened Args

  // ---------- decoding ----------

  predicate AllSpaces(s: bytes) { forall i :: 0 <= i < |s| ==> s[i] == SPACE }

  /** No space at either end. */
  predicate Trimmed(s: bytes) { s == [] || (s[0] != SPACE && s[|s| - 1] != SPACE) }

  /** A pair of quotes around something, or around nothing. */
  predicate Quoted(s: bytes) { |s| > 1 && s[0] == QUOTE && s[|s| - 1] == QUOTE }

  lemma {:induction false} LeftMeans(s: bytes) returns (a: bytes)
    ensures s == a + TrimLeft(s) && AllSpaces(a) && (TrimLeft(s) != [] ==> TrimLeft(s)[0] != SPACE)
  {
    if s != [] && s[0] == SPACE {
      var b := LeftMeans(s[1..]);
      a := [SPACE] + b;
      assert s == [SPACE] + s[1..];
    } else {
      a := [];
    }
  }

  lemma {:induction false} RightMeans(s: bytes) returns (b: bytes)
    ensures s == TrimRight(s) + b && AllSpaces(b) && (TrimRight(s) != [] ==> TrimRight(s)[|TrimRight(s)| - 1] != SPACE)
  {
    if s != [] && s[|s| - 1] == SPACE {
      var a := RightMeans(s[..|s| - 1]);
      b := a + [SPACE];
      assert s == s[..|s| - 1] + [SPACE];
    } else {
      b := [];
    }
  }

  /** Decoding takes off spaces at the ends, all of them, and then at most one pair of quotes, when asked to. */
  lemma DecodeMeans(s: bytes, skipQuotes: bool) returns (a: bytes, t: bytes, b: bytes)
    ensures s == a + t + b && AllSpaces(a) && AllSpaces(b) && Trimmed(t)
    ensures if skipQuotes && Quoted(t) then t == [QUOTE] + DecodeCookie(s, skipQuotes) + [QUOTE] else DecodeCookie(s, skipQuotes) == t
  {
    var l := TrimLeft(s);
    t := TrimRight(l);
    a := LeftMeans(s);
    b := RightMeans(l);
    hide TrimLeft, TrimRight, AllSpaces;
    assert t != [] ==> t[0] == l[0];
    Grouped(a, t, b);
    if Quoted(t) { BetweenQuotes(t); }
  }

  lemma BetweenQuotes(t: bytes)
    requires Quoted(t)
    ensures [QUOTE] + t[1..|t| - 1] + [QUOTE] == t
  {
  }

  lemma {:induction false} TrimLeftIs(a: bytes, t: bytes)
    requires AllSpaces(a) && (t != [] ==> t[0] != SPACE)
    ensures TrimLeft(a + t) == t
  {
    if a == [] {
      assert a + t == t;
    } else {
      assert (a + t)[1..] == a[1..] + t;
      TrimLeftIs(a[1..], t);
    }
  }

  lemma {:induction false} TrimRightIs(t: bytes, b: bytes)
    requires AllSpaces(b) && (t != [] ==> t[|t| - 1] != SPACE)
    ensures TrimRight(t + b) == t
  {
    if b == [] {
      assert t + b == t;
    } else {
      assert (t + b)[..|t + b| - 1] == t + b[..|b| - 1];
      TrimRightIs(t, b[..|b| - 1]);
    }
  }

  /** What is between the spaces is what decoding gives, without its quotes when asked to. */
  lemma DecodeIs(a: bytes, t: bytes, b: bytes, skipQuotes: bool)
    requires AllSpaces(a) && AllSpaces(b) && Trimmed(t)
    ensures DecodeCookie(a + t + b, skipQuotes) == if skipQuotes && Quoted(t) then t[1..|t| - 1] else t
  {
    if t == [] {
      assert a + t + b == (a + b) + [];
      TrimLeftIs(a + b, []);
    } else {
      assert a + t + b == a + (t + b);
      TrimLeftIs(a, t + b);
      TrimRightIs(t, b);
    }
  }

  /** Spaces in front make no difference. */
  lemma DecodeLead(lead: bytes, s: bytes, skipQuotes: bool)
    requires AllSpaces(lead)
    ensures DecodeCookie(lead + s, skipQuotes) == DecodeCookie(s, skipQuotes)
  {
    hide DecodeCookie;
    var a, t, b := DecodeMeans(s, false);
    assert lead + s == (lead + a) + t + b;
    DecodeIs(lead + a, t, b, skipQuotes);
    DecodeIs(a, t, b, skipQuotes);
  }

  /** Decoding leaves alone exactly what has no space at its ends and no quotes to take off. */
  lemma DecodeFixed(s: bytes, skipQuotes: bool)
    ensures DecodeCookie(s, skipQuotes) == s <==> Trimmed(s) && !(skipQuotes && Quoted(s))
    ensures |DecodeCookie(s, skipQuotes)| <= |s|
  {
    hide DecodeCookie;
    var a, t, b := DecodeMeans(s, skipQuotes);
    if Trimmed(s) {
      assert [] + s + [] == s;
      DecodeIs([], s, [], skipQuotes);
    }
    if DecodeCookie(s, skipQuotes) == s { assert |a| == |b| == 0 && s == t; }
  }

  /** Decoding adds no byte. */
  lemma DecodeWithin(s: bytes, skipQuotes: bool, c: byte)
    requires c in DecodeCookie(s, skipQuotes)
    ensures c in s
  {
    hide DecodeCookie;
    var r := DecodeCookie(s, skipQuotes);
    var a, t, b := DecodeMeans(s, skipQuotes);
    assert c in t;
  }

  // ---------- lists of cookies ----------

  /** Segments with a semicolon and a space between them. */
  function Join(segs: seq<bytes>): bytes {
    if segs == [] then [] else if |segs| == 1 then segs[0] else segs[0] + ([SEMICOLON] + ([SPACE] + Join(segs[1..])))
  }

  function ReadAll(segs: seq<bytes>): seq<KV> {
    if segs == [] then [] else Only(CookieSegment(segs[0])) + ReadAll(segs[1..])
  }

  predicate Separate(segs: seq<bytes>) { forall i :: 0 <= i < |segs| ==> SEMICOLON !in segs[i] }

  lemma SegmentLead(lead: bytes, seg: bytes)
    requires AllSpaces(lead)
    ensures CookieSegment(lead + seg) == CookieSegment(seg)
  {
    SpacesOnly(lead, EQUALS);
    hide DecodeCookie, First, AllSpaces;
    FirstAfter(lead, EQUALS, seg);
    var e := First(seg, EQUALS);
    if e < |seg| {
      LeadSlices(lead, seg, e);
      DecodeLead(lead, seg[..e], false);
    } else {
      DecodeLead(lead, seg, true);
    }
  }

  lemma SpacesOnly(lead: bytes, c: byte)
    requires AllSpaces(lead) && c != SPACE
    ensures c !in lead
  {
  }

  lemma LeadSlices(lead: bytes, seg: bytes, e: nat)
    requires e < |seg|
    ensures (lead + seg)[..|lead| + e] == lead + seg[..e] && (lead + seg)[|lead| + e + 1..] == seg[e + 1..]
  {
  }

  lemma LastCookie(p: bytes)
    requires SEMICOLON !in p
    ensures ParseCookies(p) == if p == [] then [] else Only(CookieSegment(p))
  {
    FirstAfter(p, SEMICOLON, []);
    hide First, CookieSegment;
    assert p + [] == p && p[..|p|] == p;
  }

  lemma FirstCookie(p: bytes, tail: bytes)
    requires SEMICOLON !in p
    ensures ParseCookies(p + [SEMICOLON] + tail) == Only(CookieSegment(p)) + ParseCookies(tail)
  {
    FirstAfter(p, SEMICOLON, [SEMICOLON] + tail);
    hide First, CookieSegment;
    var b := p + [SEMICOLON] + tail;
    assert b == p + ([SEMICOLON] + tail);
    assert b[..|p|] == p && b[|p| + 1..] == tail;
  }

  lemma EmptyCookie(lead: bytes)
    requires AllSpaces(lead)
    ensures Only(CookieSegment(lead)) == []
  {
    assert lead + [] == lead;
    SegmentLead(lead, []);
    assert DecodeCookie([], true) == [];
  }

  /** Joined segments are read one by one, whatever spaces are in front. */
  lemma {:induction false} JoinedReads(lead: bytes, segs: seq<bytes>)
    requires AllSpaces(lead) && Separate(segs)
    ensures ParseCookies(lead + Join(segs)) == ReadAll(segs)
    decreases |segs|
  {
    EmptyCookie(lead);
    EmptyCookie([]);
    SpacesOnly(lead, SEMICOLON);
    if segs == [] {
      assert lead + [] == lead;
      LastCookie(lead);
    } else {
      var p := lead + segs[0];
      SegmentLead(lead, segs[0]);
      assert SEMICOLON !in p && Separate(segs[1..]) && AllSpaces([SPACE]);
      hide ParseCookies, CookieSegment, Separate, AllSpaces;
      if |segs| == 1 {
        LastCookie(p);
      } else {
        JoinStep(lead, segs);
        FirstCookie(p, [SPACE] + Join(segs[1..]));
        JoinedReads([SPACE], segs[1..]);
      }
    }
  }

  lemma JoinStep(lead: bytes, segs: seq<bytes>)
    requires |segs| > 1
    ensures lead + Join(segs) == (lead + segs[0]) + [SEMICOLON] + ([SPACE] + Join(segs[1..]))
  {
    var w := [SPACE] + Join(segs[1..]);
    Grouped(lead, segs[0], [SEMICOLON] + w);
    Grouped(lead + segs[0], [SEMICOLON], w);
  }

  function Behind(a: bytes, b: bytes): bytes { a + [SEMICOLON] + b }

  lemma BehindTwice(p: bytes, a: bytes, b: bytes)
    ensures Behind(Behind(p, a), b) == Behind(p, Behind(a, b))
  {
  }

  lemma CutFirst(a: bytes)
    requires First(a, SEMICOLON) < |a|
    ensures var n := First(a, SEMICOLON); SEMICOLON !in a[..n] && a == Behind(a[..n], a[n + 1..])
  {
    hide First;
    var n := First(a, SEMICOLON);
    CutHere(a, n);
  }

  lemma CutHere(a: bytes, n: nat)
    requires n < |a|
    ensures a[..n] + [a[n]] + a[n + 1..] == a
  {
  }

  /** A semicolon anywhere separates what is before it from what is behind it. */
  lemma {:induction false} ParsedApart(a: bytes, b: bytes)
    ensures ParseCookies(Behind(a, b)) == ParseCookies(a) + ParseCookies(b)
    decreases |a|
  {
    var n := First(a, SEMICOLON);
    EmptyCookie([]);
    hide ParseCookies, CookieSegment, First;
    if n == |a| {
      FirstCookie(a, b);
      LastCookie(a);
    } else {
      CutFirst(a);
      var p, rest := a[..n], a[n + 1..];
      FirstCookie(p, rest);
      BehindTwice(p, rest, b);
      FirstCookie(p, Behind(rest, b));
      ParsedApart(rest, b);
      Appended(Only(CookieSegment(p)), ParseCookies(rest), ParseCookies(b));
    }
  }

  lemma Appended(a: seq<KV>, b: seq<KV>, c: seq<KV>)
    ensures a + b + c == a + (b + c) && b + [] == b
  {
  }

  // ---------- printing ----------

  /** A cookie without a name is printed as its value. */
  function PrintCookie(kv: KV): bytes { if kv.key == [] then kv.value else kv.key + [EQUALS] + kv.value }

  function PrintQuoted(kv: KV): bytes { kv.key + [EQUALS] + ([QUOTE] + kv.value + [QUOTE]) }

  function Printed(cs: seq<KV>): seq<bytes> { if cs == [] then [] else [PrintCookie(cs[0])] + Printed(cs[1..]) }

  function PrintedQuoted(cs: seq<KV>): seq<bytes> { if cs == [] then [] else [PrintQuoted(cs[0])] + PrintedQuoted(cs[1..]) }

  function PrintCookies(cs: seq<KV>): bytes { Join(Printed(cs)) }

  /** What a printed cookie must be like to be read back. */
  predicate Plain(kv: KV) {
    && !kv.noValue && EQUALS !in kv.key && Trimmed(kv.key)
    && Trimmed(kv.value) && !Quoted(kv.value) && (kv.key == [] ==> EQUALS !in kv.value)
  }

  lemma KeyValue(key: bytes, value: bytes)
    requires EQUALS !in key
    ensures CookieSegment(key + [EQUALS] + value) == KV(DecodeCookie(key, false), DecodeCookie(value, true), false)
  {
    FirstAfter(key, EQUALS, [EQUALS] + value);
    hide DecodeCookie, First;
    var seg := key + [EQUALS] + value;
    assert seg == key + ([EQUALS] + value) && First([EQUALS] + value, EQUALS) == 0;
    assert seg[..|key|] == key && seg[|key| + 1..] == value;
  }

  /** The key that is read holds no equals sign. */
  lemma KeyClean(seg: bytes)
    ensures EQUALS !in CookieSegment(seg).key && !CookieSegment(seg).noValue
    ensures EQUALS in seg ==> |CookieSegment(seg).value| < |seg|
  {
    hide DecodeCookie;
    var e := First(seg, EQUALS);
    if e < |seg| {
      if EQUALS in DecodeCookie(seg[..e], false) { DecodeWithin(seg[..e], false, EQUALS); }
      DecodeFixed(seg[e + 1..], true);
    }
  }

  lemma PrintedExactly(kv: KV)
    ensures CookieSegment(PrintCookie(kv)) == kv <==> Plain(kv)
  {
    KeyClean(PrintCookie(kv));
    DecodeFixed(kv.key, false);
    DecodeFixed(kv.value, true);
    hide DecodeCookie, Quoted, Trimmed;
    if kv.key != [] && EQUALS !in kv.key {
      KeyValue(kv.key, kv.value);
    } else if kv.key == [] && EQUALS !in kv.value {
      assert Trimmed([]);
      FirstAfter(kv.value, EQUALS, []);
      assert kv.value + [] == kv.value;
    }
  }

  /** A value in quotes is read back whatever it is, spaces and quotes of its own included. */
  lemma QuotedReads(kv: KV)
    requires !kv.noValue && EQUALS !in kv.key && Trimmed(kv.key)
    ensures CookieSegment(PrintQuoted(kv)) == kv
  {
    var t := [QUOTE] + kv.value + [QUOTE];
    DecodeFixed(kv.key, false);
    assert t[1..|t| - 1] == kv.value && [] + t + [] == t;
    DecodeIs([], t, [], true);
    hide DecodeCookie;
    KeyValue(kv.key, t);
  }

  /** A value that carries quotes of its own loses them. */
  lemma QuotesLost(key: bytes, value: bytes)
    requires key != [] && EQUALS !in key && Trimmed(key)
    ensures CookieSegment(PrintCookie(KV(key, [QUOTE] + value + [QUOTE], false))) == KV(key, value, false)
  {
    QuotedReads(KV(key, value, false));
    hide CookieSegment;
  }

  /** No parsed cookie is empty or holds a semicolon. */
  lemma {:induction false} ParsedQuiet(b: bytes, kv: KV)
    requires kv in ParseCookies(b)
    ensures Nonempty(kv) && SEMICOLON !in kv.key && SEMICOLON !in kv.value
    decreases |b|
  {
    var n := First(b, SEMICOLON);
    if kv in Only(CookieSegment(b[..n])) {
      SegmentQuiet(b[..n]);
    } else {
      ParsedQuiet(Rest(b, SEMICOLON), kv);
    }
  }

  lemma SegmentQuiet(seg: bytes)
    requires SEMICOLON !in seg
    ensures SEMICOLON !in CookieSegment(seg).key && SEMICOLON !in CookieSegment(seg).value
  {
    hide DecodeCookie;
    var e := First(seg, EQUALS);
    var k, v := if e < |seg| then seg[..e] else [], if e < |seg| then seg[e + 1..] else seg;
    if SEMICOLON in DecodeCookie(k, false) { DecodeWithin(k, false, SEMICOLON); }
    if SEMICOLON in DecodeCookie(v, true) { DecodeWithin(v, true, SEMICOLON); }
  }

  predicate Unbroken(cs: seq<KV>) { forall i :: 0 <= i < |cs| ==> SEMICOLON !in cs[i].key && SEMICOLON !in cs[i].value }

  lemma {:induction false} PrintedSeparate(cs: seq<KV>)
    requires Unbroken(cs)
    ensures Separate(Printed(cs)) && Separate(PrintedQuoted(cs))
  {
    if cs != [] { PrintedSeparate(cs[1..]); }
  }

  lemma {:induction false} ReadsBack(cs: seq<KV>)
    ensures |ReadAll(Printed(cs))| <= |cs|
    ensures ReadAll(Printed(cs)) == cs <==> forall i :: 0 <= i < |cs| ==> Plain(cs[i]) && Nonempty(cs[i])
  {
    if cs != [] {
      var p, tail := PrintCookie(cs[0]), Printed(cs[1..]);
      assert ([p] + tail)[1..] == tail;
      ReadsBack(cs[1..]);
      PrintedExactly(cs[0]);
      hide Plain, CookieSegment, PrintCookie;
      assert cs == [cs[0]] + cs[1..];
      if ReadAll(Printed(cs)) == cs {
        assert Only(CookieSegment(p)) != [];
        assert cs[0] == CookieSegment(p) && cs[1..] == ReadAll(tail);
      }
    }
  }

  /** Parsing a printed list gives the list back if and only if every cookie in it can be read back on its own. */
  lemma CookiesExactly(cs: seq<KV>)
    ensures ParseCookies(PrintCookies(cs)) == cs <==>
            Unbroken(cs) && forall i :: 0 <= i < |cs| ==> Plain(cs[i]) && Nonempty(cs[i])
  {
    hide ParseCookies, Plain, Join, ReadAll, Printed;
    if ParseCookies(PrintCookies(cs)) == cs {
      forall i | 0 <= i < |cs| ensures SEMICOLON !in cs[i].key && SEMICOLON !in cs[i].value { ParsedQuiet(PrintCookies(cs), cs[i]); }
    }
    if Unbroken(cs) {
      hide Unbroken;
      PrintedSeparate(cs);
      JoinedReads([], Printed(cs));
      NoLead(PrintCookies(cs));
      ReadsBack(cs);
    }
  }

  lemma NoLead(b: bytes)
    ensures [] + b == b
  {
  }

  /** What remains of that when the values are printed in quotes: the names need care, the values none. */
  predicate Named(cs: seq<KV>) {
    forall i :: 0 <= i < |cs| ==> !cs[i].noValue && EQUALS !in cs[i].key && Trimmed(cs[i].key) && Nonempty(cs[i])
  }

  lemma {:induction false} QuotedReadBack(cs: seq<KV>)
    requires Named(cs)
    ensures ReadAll(PrintedQuoted(cs)) == cs
  {
    if cs != [] {
      var p, tail := PrintQuoted(cs[0]), PrintedQuoted(cs[1..]);
      assert ([p] + tail)[1..] == tail;
      QuotedReads(cs[0]);
      assert Named(cs[1..]);
      hide Named, PrintQuoted, CookieSegment;
      QuotedReadBack(cs[1..]);
    }
  }

  /** Values in quotes are read back whatever they are, semicolons aside. */
  lemma QuotedRoundTrip(cs: seq<KV>)
    requires Named(cs) && Unbroken(cs)
    ensures ParseCookies(Join(PrintedQuoted(cs))) == cs
  {
    hide ParseCookies, Named, Unbroken, Join, PrintedQuoted, Separate;
    PrintedSeparate(cs);
    JoinedReads([], PrintedQuoted(cs));
    NoLead(Join(PrintedQuoted(cs)));
    QuotedReadBack(cs);
  }

  lemma JoinNext(cs: seq<KV>, i: nat)
    requires i < |cs|
    ensures PrintCookies(cs[i..]) == PrintCookie(cs[i]) + (if i + 1 < |cs| then [SEMICOLON, SPACE] else []) + PrintCookies(cs[i + 1..])
  {
    var tail := Printed(cs[i + 1..]);
    assert cs[i..][1..] == cs[i + 1..];
    assert Printed(cs[i..]) == [PrintCookie(cs[i])] + tail && ([PrintCookie(cs[i])] + tail)[1..] == tail;
    if i + 1 == |cs| {
      assert tail == [];
    } else {
      Grouped([SEMICOLON], [SPACE], Join(tail));
      Grouped(PrintCookie(cs[i]), [SEMICOLON, SPACE], Join(tail));
    }
  }

  /** Prints the cookies of a request behind `dst`. */
  method AppendRequestCookies(dst: bytes, cookies: seq<KV>) returns (r: bytes)
    ensures r == dst + PrintCookies(cookies)
  {
    r := dst;
    for i := 0 to |cookies|
      invariant r + PrintCookies(cookies[i..]) == dst + PrintCookies(cookies)
    {
      JoinNext(cookies, i);
      var kv := cookies[i];
      hide PrintCookies;
      ghost var before := r;
      if |kv.key| > 0 {
        r := r + kv.key;
        r := r + [EQUALS];
      }
      r := r + kv.value;
      assert r == before + PrintCookie(kv);
      if i + 1 < |cookies| {
        r := r + [SEMICOLON, SPACE];
      }
      Regrouped(before, PrintCookie(kv), if i + 1 < |cookies| then [SEMICOLON, SPACE] else [], PrintCookies(cookies[i + 1..]));
    }
  }
}
