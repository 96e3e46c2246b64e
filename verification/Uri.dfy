/** Parsing a URI into its parts and printing it back (section 5.3 of RFC 3986). */
module Uri {
  import opened ByteCodec
  import opened PathNormal

  const COLON: byte := ':' as byte
  const QUERY: byte := '?' as byte
  const HASH: byte := '#' as byte
  const AT: byte := '@' as byte
  const HTTP: bytes := ['h' as byte, 't' as byte, 't' as byte, 'p' as byte]
  const HTTPS: bytes := HTTP + ['s' as byte]
  const SLASHES: bytes := [SLASH, SLASH]
  const COLON_SLASHES: bytes := [COLON, SLASH, SLASH]

  /** The parts of a URI; an empty byte string stands for a missing part. */
  datatype Parts = Parts(scheme: bytes, host: bytes, username: bytes, password: bytes,
                         pathOriginal: bytes, path: bytes, query: bytes, hash: bytes)

  const NO_PARTS := Parts([], [], [], [], [], [], [], [])

  function Lower(c: byte): byte { if IsUpper(c) then (c as int + 32) as byte else c }

  function LowerAll(s: bytes): (r: bytes)
    ensures |r| == |s| && forall i :: 0 <= i < |s| ==> r[i] == Lower(s[i])
  {
    seq(|s|, i requires 0 <= i < |s| => Lower(s[i]))
  }

  predicate IsControl(c: byte) { c < SPACE || c == 0x7f }

  predicate HasControl(s: bytes) { exists i :: 0 <= i < |s| && IsControl(s[i]) }

  ghost predicate Contains(s: bytes, pat: bytes) { exists n :: 0 <= n <= |s| && Occurs(s, n, pat) }

  // ---------- scheme and host ----------

  predicate SchemeStart(c: byte) { IsUpper(c) || IsLower(c) }
  predicate SchemeRest(c: byte) { SchemeStart(c) || IsDigit(c) || c == PLUS || c == '-' as byte || c == DOT }

  /** `s` begins with a scheme of length `n` and a colon. */
  ghost predicate SchemeAt(s: bytes, n: nat) {
    0 < n < |s| && s[n] == COLON && SchemeStart(s[0]) && forall i :: 0 <= i < n ==> SchemeRest(s[i])
  }

  /** The length of the scheme, or 0. */
  function SchemeLength(s: bytes): (n: nat)
    ensures n > 0 ==> SchemeAt(s, n)
    ensures forall k :: SchemeAt(s, k) ==> n == k
  {
    var n := First(s, COLON);
    if 0 < n < |s| && SchemeStart(s[0]) && (forall i :: 0 <= i < n ==> SchemeRest(s[i])) then n else 0
  }

  method GetScheme(s: bytes) returns (n: nat)
    ensures n == SchemeLength(s)
  {
    var i := 0;
    while i < |s|
      invariant 0 <= i <= |s|
      invariant forall k :: 0 <= k < i ==> SchemeRest(s[k])
      invariant i > 0 ==> SchemeStart(s[0])
    {
      var c := s[i];
      if SchemeStart(c) {
      } else if IsDigit(c) || c == PLUS || c == '-' as byte || c == DOT {
        if i == 0 { return 0; }
      } else if c == COLON {
        if i == 0 { return 0; }
        assert SchemeAt(s, i);
        return i;
      } else {
        return 0;
      }
      i := i + 1;
    }
    return 0;
  }

  /** Scheme, authority and the rest. */
  function SplitHostUri(host: bytes, uri: bytes): (bytes, bytes, bytes) {
    var n := SchemeLength(uri);
    if n == 0 || !(SLASHES <= uri[n + 1..]) then (HTTP, host, uri)
    else
      var rest := uri[n + 3..];
      var k := First(rest, SLASH);
      if k < |rest| then (uri[..n], rest[..k], rest[k..])
      else
        var q := First(rest, QUERY);
        if q < |rest| then (uri[..n], rest[..q], rest[q..]) else (uri[..n], rest, [SLASH])
  }

  // ---------- parsing ----------

  /** What follows the byte at `k`, if there is one. */
  function After(s: bytes, k: nat): bytes { if k < |s| then s[k + 1..] else [] }

  /** Authority without and with credentials. */
  function WithAuthority(p: Parts, host: bytes): Parts {
    var n := First(host, AT);
    if n == |host| then p.(host := LowerAll(host))
    else
      var auth := host[..n];
      var k := First(auth, COLON);
      p.(host := LowerAll(host[n + 1..]), username := auth[..k], password := After(auth, k))
  }

  /** Path, query and fragment. A question mark behind the fragment sign belongs to the fragment. */
  function WithTarget(p: Parts, b: bytes): Parts {
    var h := First(b, HASH);
    var q := First(b[..h], QUERY);
    p.(pathOriginal := b[..q], path := Normalize(Rooted(b[..q])),
       query := if q == h then [] else b[q + 1..h],
       hash := After(b, h))
  }

  ghost function ParseParts(host: bytes, uri: bytes, tls: bool): Parts {
    if HasControl(uri) then NO_PARTS
    else
      var (scheme, host', uri') :=
        if host == [] || Contains(uri, COLON_SLASHES) then SplitHostUri(host, uri) else ([], host, uri);
      WithTarget(WithAuthority(NO_PARTS.(scheme := if tls then HTTPS else LowerAll(scheme)), host'), uri')
  }

  // ---------- printing ----------

  function SchemeOf(p: Parts): bytes { if p.scheme == [] then HTTP else p.scheme }
  function PathOf(p: Parts): bytes { if p.path == [] then [SLASH] else p.path }

  function RequestUri(p: Parts): bytes {
    QuotePath(PathOf(p)) + if p.query == [] then [] else [QUERY] + p.query
  }

  function FullUri(p: Parts): bytes {
    SchemeOf(p) + COLON_SLASHES + p.host + RequestUri(p) + if p.hash == [] then [] else [HASH] + p.hash
  }

  /** What callers see of a URI is the same. */
  ghost predicate Same(p: Parts, q: Parts) {
    SchemeOf(p) == SchemeOf(q) && p.host == q.host && PathOf(p) == PathOf(q) && p.query == q.query && p.hash == q.hash
  }

  // ---------- the mutable URI ----------

  method IndexByte(s: bytes, c: byte) returns (n: int)
    ensures n == if First(s, c) < |s| then First(s, c) else -1
  {
    n := 0;
    while n < |s| && s[n] != c
      invariant 0 <= n <= |s| && forall i :: 0 <= i < n ==> s[i] != c
    {
      n := n + 1;
    }
    if n == |s| { n := -1; }
  }

  method ContainsControl(s: bytes) returns (r: bool)
    ensures r == HasControl(s)
  {
    for i := 0 to |s|
      invariant forall k :: 0 <= k < i ==> !IsControl(s[k])
    {
      if IsControl(s[i]) { return true; }
    }
    return false;
  }

  method ContainsBytes(s: bytes, pat: bytes) returns (r: bool)
    ensures r == Contains(s, pat)
  {
    var n := 0;
    while n + |pat| <= |s|
      invariant 0 <= n && forall k :: 0 <= k < n ==> !Occurs(s, k, pat)
    {
      if s[n..n + |pat|] == pat {
        assert Occurs(s, n, pat);
        return true;
      }
      n := n + 1;
    }
    return false;
  }

  /** The split in the order of the source: scheme, slashes, then the first slash or question mark. */
  method SplitHost(host: bytes, uri: bytes) returns (scheme: bytes, authority: bytes, target: bytes)
    ensures (scheme, authority, target) == SplitHostUri(host, uri)
  {
    hide First, SchemeLength;
    var length := GetScheme(uri);
    if length == 0 || !(SLASHES <= uri[length + 1..]) {
      return HTTP, host, uri;
    }
    var rest := uri[length + 3..];
    var n := IndexByte(rest, SLASH);
    if n < 0 {
      n := IndexByte(rest, QUERY);
      if n >= 0 {
        return uri[..length], rest[..n], rest[n..];
      }
      return uri[..length], rest, [SLASH];
    }
    return uri[..length], rest[..n], rest[n..];
  }

  class URI {
    var scheme: bytes
    var host: bytes
    var username: bytes
    var password: bytes
    var pathOriginal: bytes
    var path: bytes
    var queryString: bytes
    var hash: bytes

    ghost function Value(): Parts
      reads this
    {
      Parts(scheme, host, username, password, pathOriginal, path, queryString, hash)
    }

    constructor ()
      ensures Value() == NO_PARTS
    {
      scheme, host, username, password, pathOriginal, path, queryString, hash := [], [], [], [], [], [], [], [];
    }

    method Reset()
      modifies this
      ensures Value() == NO_PARTS
    {
      scheme, host, username, password, pathOriginal, path, queryString, hash := [], [], [], [], [], [], [], [];
    }

    method SplitAuthority(authority: bytes)
      requires username == [] && password == []
      modifies this`host, this`username, this`password
      ensures Value() == WithAuthority(old(Value()), authority)
    {
      hide First, LowerAll;
      var n := IndexByte(authority, AT);
      if n < 0 {
        host := LowerAll(authority);
        return;
      }
      var auth := authority[..n];
      var k := IndexByte(auth, COLON);
      if k >= 0 {
        username, password := auth[..k], After(auth, k);
      } else {
        assert auth[..|auth|] == auth;
        username, password := auth, After(auth, |auth|);
      }
      host := LowerAll(authority[n + 1..]);
    }

    method SplitTarget(b: bytes)
      requires queryString == [] && hash == []
      modifies this`pathOriginal, this`path, this`queryString, this`hash
      ensures Value() == WithTarget(old(Value()), b)
    {
      TargetParts(Value(), b);
      hide First, Normalize, WithTarget;
      pathOriginal, queryString, hash := CutTarget(b);
      path := NormalizePath(pathOriginal);
    }

    /** Where the path ends, the query and the fragment. */
    static method CutTarget(b: bytes) returns (path: bytes, query: bytes, fragment: bytes)
      ensures var h := First(b, HASH);
        var q := First(b[..h], QUERY);
        path == b[..q] && query == (if q == h then [] else b[q + 1..h]) && fragment == if h == |b| then [] else b[h + 1..]
    {
      hide First;
      var queryIndex := IndexByte(b, QUERY);
      var fragmentIndex := IndexByte(b, HASH);
      QueryBeforeHash(b);
      query, fragment := [], [];
      if fragmentIndex >= 0 && queryIndex > fragmentIndex { queryIndex := -1; }
      if queryIndex < 0 && fragmentIndex < 0 {
        assert b[..|b|] == b;
        return b, [], [];
      }
      if queryIndex >= 0 {
        path := b[..queryIndex];
        if fragmentIndex < 0 {
          query := b[queryIndex + 1..];
        } else {
          query := b[queryIndex + 1..fragmentIndex];
          fragment := b[fragmentIndex + 1..];
        }
        return;
      }
      path := b[..fragmentIndex];
      fragment := b[fragmentIndex + 1..];
    }

    /** The parts of a target by the positions of its separators. */
    lemma TargetParts(p: Parts, b: bytes)
      ensures var h := First(b, HASH);
        var q, t := First(b[..h], QUERY), WithTarget(p, b);
        && q <= h <= |b| && t.scheme == p.scheme && t.host == p.host && t.username == p.username && t.password == p.password
        && t.pathOriginal == b[..q] && t.path == Normalize(Rooted(b[..q]))
        && t.query == (if q == h then [] else b[q + 1..h]) && t.hash == if h == |b| then [] else b[h + 1..]
    {
      hide First, Normalize;
    }

    /** Resets the fields and fills them from a host and a URI. */
    method Parse(host0: bytes, uri0: bytes, tls: bool)
      modifies this
      ensures Value() == ParseParts(host0, uri0, tls)
    {
      Reset();
      var control := ContainsControl(uri0);
      if control { return; }
      var authority, target := host0, uri0;
      var absolute := ContainsBytes(uri0, COLON_SLASHES);
      if |host0| == 0 || absolute {
        var prefix;
        prefix, authority, target := SplitHost(host0, uri0);
        scheme := LowerAll(prefix);
      }
      if tls { scheme := HTTPS; }
      SplitAuthority(authority);
      SplitTarget(target);
    }

    method RequestURI() returns (r: bytes)
      ensures r == RequestUri(Value())
    {
      hide QuotePath;
      r := AppendQuotedPath([], if |path| == 0 then [SLASH] else path);
      if |queryString| > 0 {
        r := r + [QUERY];
        r := r + queryString;
      }
    }

    method FullURI() returns (r: bytes)
      ensures r == FullUri(Value())
    {
      hide RequestUri;
      r := if |scheme| == 0 then HTTP else scheme;
      r := r + COLON_SLASHES;
      r := r + host;
      var target := RequestURI();
      r := r + target;
      if |hash| > 0 {
        r := r + [HASH];
        r := r + hash;
      }
    }
  }

  /** Where the first question mark stands relative to the fragment sign. */
  lemma QueryBeforeHash(b: bytes)
    ensures var h, q, q' := First(b, HASH), First(b, QUERY), First(b[..First(b, HASH)], QUERY);
      q' == if q < h then q else h
  {
  }

  // ---------- printing and parsing again ----------

  predicate NoControl(s: bytes) { forall i :: 0 <= i < |s| ==> !IsControl(s[i]) }

  /** What a parsed URI always is. */
  ghost predicate WellFormed(p: Parts) {
    && SchemeAt(SchemeOf(p) + [COLON], |SchemeOf(p)|) && LowerAll(SchemeOf(p)) == SchemeOf(p)
    && LowerAll(p.host) == p.host && SLASH !in p.host
    && Normal(PathOf(p)) && HASH !in p.query
    && NoControl(p.host) && NoControl(p.query) && NoControl(p.hash)
  }

  lemma LowerAllOnce(s: bytes)
    ensures LowerAll(LowerAll(s)) == LowerAll(s)
    ensures SLASH !in s ==> SLASH !in LowerAll(s)
    ensures NoControl(s) ==> NoControl(LowerAll(s))
  {
  }

  lemma AuthorityWellFormed(p: Parts, host: bytes)
    requires SLASH !in host && NoControl(host)
    ensures var r := WithAuthority(p, host);
      LowerAll(r.host) == r.host && SLASH !in r.host && NoControl(r.host)
  {
    hide First;
    var n := First(host, AT);
    var h := if n == |host| then host else host[n + 1..];
    assert forall c :: c in h ==> c in host;
    LowerAllOnce(h);
  }

  lemma TargetWellFormed(p: Parts, b: bytes)
    requires NoControl(b)
    ensures var r := WithTarget(p, b);
      Normal(r.path) && HASH !in r.query && NoControl(r.query) && NoControl(r.hash)
  {
    hide First;
    var h := First(b, HASH);
    var q := First(b[..h], QUERY);
    NormalizeIsNormal(Rooted(b[..q]));
  }

  /** Splitting gives a scheme, and a host without a slash. */
  lemma SplitWellFormed(uri: bytes)
    requires NoControl(uri)
    ensures var (scheme, host, rest) := SplitHostUri([], uri);
      SchemeAt(scheme + [COLON], |scheme|) && SLASH !in host && NoControl(host) && NoControl(rest)
  {
    hide First;
    var n := SchemeLength(uri);
    if n > 0 && SLASHES <= uri[n + 1..] {
      assert uri[..n] + [COLON] == uri[..n + 1];
      var rest := uri[n + 3..];
      assert forall i :: 0 <= i < |rest| ==> rest[i] == uri[n + 3 + i];
    }
  }

  lemma LowerScheme(s: bytes)
    requires SchemeAt(s + [COLON], |s|)
    ensures SchemeAt(LowerAll(s) + [COLON], |s|)
  {
    var l := LowerAll(s);
    forall i | 0 <= i < |s| ensures SchemeRest(l[i]) { assert (s + [COLON])[i] == s[i]; }
    assert (s + [COLON])[0] == s[0];
  }

  lemma ParsedWellFormed(uri: bytes)
    ensures WellFormed(ParseParts([], uri, false))
  {
    hide First, Normalize, SchemeLength, SplitHostUri, WithAuthority, WithTarget;
    DefaultWellFormed();
    if !HasControl(uri) {
      var (scheme, host, rest) := SplitHostUri([], uri);
      SplitWellFormed(uri);
      LowerScheme(scheme);
      LowerAllOnce(scheme);
      var p := NO_PARTS.(scheme := LowerAll(scheme));
      AuthorityWellFormed(p, host);
      TargetWellFormed(WithAuthority(p, host), rest);
      KeepsParts(p, host, rest);
    }
  }

  /** Each step of parsing fills in its own parts only. */
  lemma KeepsParts(p: Parts, host: bytes, b: bytes)
    ensures var q := WithAuthority(p, host); var r := WithTarget(q, b);
      r.scheme == q.scheme == p.scheme && r.host == q.host && r.path != []
  {
    hide First;
    var h := First(b, HASH);
    NormalizeIsNormal(Rooted(b[..First(b[..h], QUERY)]));
  }

  lemma DefaultWellFormed()
    ensures WellFormed(NO_PARTS) && SchemeAt(HTTP + [COLON], |HTTP|)
  {
    assert LowerAll(HTTP) == HTTP;
    forall n, x: bytes | NoSlash(x) && Occurs([SLASH], n, Between(x)) ensures false { }
  }

  /** Quoting leaves no byte with a meaning of its own in a URI. */
  predicate Quiet(c: byte) { !IsControl(c) && c != QUERY && c != HASH }

  lemma {:induction false} QuotedQuiet(s: bytes)
    ensures forall i :: 0 <= i < |QuotePathBytes(s)| ==> Quiet(QuotePathBytes(s)[i])
  {
    if s != [] {
      QuotedQuiet(s[1..]);
      var c := s[0];
      if PathEscaped(c) {
        HexQuiet(c as int / 16);
        HexQuiet(c as int % 16);
      }
    }
  }

  lemma HexQuiet(v: int)
    requires 0 <= v < 16
    ensures Quiet(UpperHex(v))
  {
  }

  lemma QuotedRooted(s: bytes)
    requires s != [] && s[0] == SLASH
    ensures QuotePath(s) == QuotePathBytes(s) && QuotePath(s) != [] && QuotePath(s)[0] == SLASH
  {
  }

  /** The text behind the authority of a printed URI. */
  function Target(p: Parts): bytes {
    RequestUri(p) + if p.hash == [] then [] else [HASH] + p.hash
  }

  /** Where the parts of a target end. */
  lemma TargetSplits(path: bytes, query: bytes, hash: bytes)
    requires (forall i :: 0 <= i < |path| ==> Quiet(path[i])) && HASH !in query
    ensures var b := path + (if query == [] then [] else [QUERY] + query) + (if hash == [] then [] else [HASH] + hash);
      var h := First(b, HASH);
      && h == |path| + (if query == [] then 0 else 1 + |query|)
      && First(b[..h], QUERY) == |path|
      && b[..|path|] == path && After(b, h) == hash
      && query == if |path| == h then [] else b[|path| + 1..h]
  {
    hide First;
    var front := path + (if query == [] then [] else [QUERY] + query);
    var b := front + (if hash == [] then [] else [HASH] + hash);
    FirstIs(b, HASH, |front|);
    assert b[..|front|] == front;
    FirstIs(front, QUERY, |path|);
  }

  /** Normalising a quoted normal path gives the path back. */
  lemma QuotedAgain(path: bytes)
    requires Normal(path)
    ensures Normalize(Rooted(QuotePath(path))) == path
  {
    hide Normalize, Normal, QuotePath;
    NormalRooted(path);
    QuotedRooted(path);
    DecodeQuotedPath(path);
    NormalFixed(path);
    assert Rooted(QuotePath(path)) == path;
  }

  lemma TargetAgain(p: Parts, q: Parts)
    requires WellFormed(p)
    ensures var r := WithTarget(q, Target(p)); r.path == PathOf(p) && r.query == p.query && r.hash == p.hash
  {
    hide First, Normalize, QuotePath, Normal, Rooted, LowerAll, SchemeAt;
    var path := PathOf(p);
    NormalRooted(path);
    QuotedRooted(path);
    QuotedQuiet(path);
    TargetSplits(QuotePath(path), p.query, p.hash);
    QuotedAgain(path);
  }

  lemma TargetQuiet(p: Parts)
    requires WellFormed(p)
    ensures Target(p) != [] && Target(p)[0] == SLASH && NoControl(Target(p))
  {
    hide QuotePath, Normal, LowerAll, SchemeAt;
    var path := PathOf(p);
    NormalRooted(path);
    QuotedRooted(path);
    QuotedQuiet(path);
  }

  lemma NormalRooted(p: bytes)
    requires Normal(p)
    ensures p != [] && p[0] == SLASH
  {
  }

  /** The pieces of a printed URI as text. */
  lemma PrintedText(sc: bytes, host: bytes, t: bytes)
    ensures var f, n := sc + COLON_SLASHES + host + t, |sc|;
      f[..n] == sc && f[n] == COLON && f[n + 1..] == SLASHES + (host + t) && f[n + 3..] == host + t
  {
  }

  lemma PrintedScheme(sc: bytes, f: bytes)
    requires SchemeAt(sc + [COLON], |sc|) && |sc| < |f| && f[..|sc|] == sc && f[|sc|] == COLON
    ensures SchemeLength(f) == |sc|
  {
    forall i | 0 <= i < |sc| ensures SchemeRest(f[i]) { assert f[i] == f[..|sc|][i] == (sc + [COLON])[i]; }
    assert f[0] == f[..|sc|][0] == (sc + [COLON])[0];
    assert SchemeAt(f, |sc|);
  }

  /** A printed URI splits into the scheme, the host and the target it was printed from. */
  lemma PrintedSplits(p: Parts)
    requires WellFormed(p) && Target(p) != [] && Target(p)[0] == SLASH
    ensures FullUri(p) == SchemeOf(p) + COLON_SLASHES + p.host + Target(p)
    ensures SplitHostUri([], FullUri(p)) == (SchemeOf(p), p.host, Target(p))
  {
    hide First, SchemeLength, RequestUri, LowerAll, Normal, SchemeAt;
    var sc, t, f := SchemeOf(p), Target(p), FullUri(p);
    var front, hash := sc + COLON_SLASHES + p.host, if p.hash == [] then [] else [HASH] + p.hash;
    assert f == front + (RequestUri(p) + hash);
    PrintedText(sc, p.host, t);
    PrintedScheme(sc, f);
    var rest := p.host + t;
    FirstIs(rest, SLASH, |p.host|);
    assert rest[..|p.host|] == p.host && rest[|p.host|..] == t;
  }

  lemma PrintedQuiet(p: Parts)
    requires WellFormed(p) && NoControl(Target(p))
    ensures NoControl(SchemeOf(p) + COLON_SLASHES + p.host + Target(p))
  {
    var sc := SchemeOf(p);
    forall i | 0 <= i < |sc| ensures !IsControl(sc[i]) { assert (sc + [COLON])[i] == sc[i]; }
  }

  /** Printing a parsed URI and parsing it again gives the same URI, exactly when no `@` is left in its host. */
  lemma RoundTrip(uri: bytes)
    ensures var p := ParseParts([], uri, false);
      Same(ParseParts([], FullUri(p), false), p) <==> AT !in p.host
  {
    hide First, Normalize, SchemeLength, SplitHostUri, Target, WithTarget, WellFormed, FullUri, RequestUri;
    var p := ParseParts([], uri, false);
    ParsedWellFormed(uri);
    var sc, t := SchemeOf(p), Target(p);
    var q := NO_PARTS.(scheme := LowerAll(sc));
    TargetAgain(p, WithAuthority(q, p.host));
    TargetQuiet(p);
    PrintedSplits(p);
    PrintedQuiet(p);
    KeepsParts(q, p.host, t);
    WellFormedBasics(p);
    AuthorityAgain(q, p.host);
  }

  lemma WellFormedBasics(p: Parts)
    requires WellFormed(p)
    ensures LowerAll(SchemeOf(p)) == SchemeOf(p) != [] && LowerAll(p.host) == p.host && PathOf(p) != []
  {
  }

  /** The host is read back exactly when it holds no `@`. */
  lemma AuthorityAgain(p: Parts, host: bytes)
    requires LowerAll(host) == host
    ensures WithAuthority(p, host).host == host <==> AT !in host
  {
    hide First;
    var n := First(host, AT);
    if n < |host| { assert |LowerAll(host[n + 1..])| < |host|; }
  }

  /** Parsing what a well-formed URI prints as takes everything up to the first `@` off its host. */
  lemma ReparsedHost(p: Parts)
    requires WellFormed(p)
    ensures var n := First(p.host, AT);
      ParseParts([], FullUri(p), false).host == if n == |p.host| then p.host else LowerAll(p.host[n + 1..])
  {
    hide First, Normalize, SchemeLength, SplitHostUri, Target, WithTarget, WellFormed, FullUri, RequestUri;
    var q := NO_PARTS.(scheme := LowerAll(SchemeOf(p)));
    TargetAgain(p, WithAuthority(q, p.host));
    TargetQuiet(p);
    PrintedSplits(p);
    PrintedQuiet(p);
    KeepsParts(q, p.host, Target(p));
    WellFormedBasics(p);
  }

  predicate PlainHost(s: bytes) { forall i :: 0 <= i < |s| ==> !IsUpper(s[i]) && s[i] != SLASH && !IsControl(s[i]) && s[i] != AT }

  /** `http://u@v@w/` has the host `v@w`; printed and parsed again, the host is `w`. */
  lemma AtLeft(u: bytes, v: bytes, w: bytes)
    requires PlainHost(u) && PlainHost(v) && PlainHost(w)
    ensures var p := ParseParts([], HTTP + COLON_SLASHES + (u + [AT] + (v + [AT] + w) + [SLASH]), false);
      p.host == v + [AT] + w && ParseParts([], FullUri(p), false).host == w
  {
    var rest := v + [AT] + w;
    var host := u + [AT] + rest;
    assert host[|u| + 1..] == rest && rest[|v| + 1..] == w && host[..|u|] == u;
    hide FullUri, WellFormed, LowerAll, ParseParts, First;
    HostOf(host, |u|);
    var p := ParseParts([], HTTP + COLON_SLASHES + (host + [SLASH]), false);
    ParsedWellFormed(HTTP + COLON_SLASHES + (host + [SLASH]));
    FirstIs(rest, AT, |v|);
    ReparsedHost(p);
    LowerIs(w);
  }

  /** `http://a@b@c/` */
  lemma AtLeftInHost()
    ensures var a: bytes, b: bytes, c: bytes := ['a' as byte], ['b' as byte], ['c' as byte];
      var p := ParseParts([], HTTP + COLON_SLASHES + (a + [AT] + (b + [AT] + c) + [SLASH]), false);
      p.host == b + [AT] + c && AT in p.host && ParseParts([], FullUri(p), false).host == c && !Same(ParseParts([], FullUri(p), false), p)
  {
    var a: bytes, b: bytes, c: bytes := ['a' as byte], ['b' as byte], ['c' as byte];
    hide FullUri, ParseParts;
    AtLeft(a, b, c);
    assert (b + [AT] + c)[1] == AT && |b + [AT] + c| != |c|;
  }

  /** The host of a URI whose authority holds an `@`. */
  lemma HostOf(host: bytes, n: nat)
    requires forall i :: 0 <= i < |host| ==> !IsUpper(host[i]) && host[i] != SLASH && !IsControl(host[i])
    requires n < |host| && host[n] == AT && AT !in host[..n]
    ensures ParseParts([], HTTP + COLON_SLASHES + (host + [SLASH]), false).host == host[n + 1..]
  {
    hide FullUri, WellFormed, LowerAll, ParseParts, First;
    WellFormedHost(host);
    PrintedWitness(host);
    assert forall i :: 0 <= i < n ==> host[i] == host[..n][i];
    FirstIs(host, AT, n);
    ReparsedHost(NO_PARTS.(host := host, path := [SLASH]));
    LowerIs(host[n + 1..]);
  }

  lemma LowerIs(s: bytes)
    requires forall i :: 0 <= i < |s| ==> !IsUpper(s[i])
    ensures LowerAll(s) == s
  {
  }

  lemma WellFormedHost(host: bytes)
    requires forall i :: 0 <= i < |host| ==> !IsUpper(host[i]) && host[i] != SLASH && !IsControl(host[i])
    ensures WellFormed(NO_PARTS.(host := host, path := [SLASH]))
  {
    DefaultWellFormed();
    LowerIs(host);
    hide Normal, LowerAll, SchemeAt;
  }

  lemma PrintedWitness(host: bytes)
    ensures FullUri(NO_PARTS.(host := host, path := [SLASH])) == HTTP + COLON_SLASHES + (host + [SLASH])
  {
    assert [SLASH][1..] == [] && !PathEscaped(SLASH) && [SLASH] != [STAR];
    assert QuotePathBytes([SLASH]) == [SLASH] + QuotePathBytes([]);
    assert QuotePath([SLASH]) == [SLASH];
    hide QuotePath;
  }
}
