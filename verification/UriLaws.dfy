/** What parsing a URI means for each kind of request, stated on the text alone. */
module UriLaws {

  import opened ByteCodec
  import opened PathNormal
  import opened Uri

  /** The same text in lower case, byte by byte. */
  ghost predicate Lowered(r: bytes, s: bytes) {
    |r| == |s| && forall i :: 0 <= i < |s| ==> r[i] as int == s[i] as int + if 'A' as byte <= s[i] <= 'Z' as byte then 32 else 0
  }

  lemma LowersAll(s: bytes)
    ensures Lowered(LowerAll(s), s)
  {
  }

  // ---------- path, query and fragment ----------

  function Marked(mark: byte, present: bool, s: bytes): bytes { if present then [mark] + s else s }

  /** Path, query and fragment, with their separators where there are any, are the text. */
  ghost predicate Rejoins(b: bytes, p: Parts, hasQuery: bool, hasHash: bool) {
    && b == p.pathOriginal + Marked(QUERY, hasQuery, p.query) + Marked(HASH, hasHash, p.hash)
    && (!hasQuery ==> p.query == []) && (!hasHash ==> p.hash == [])
  }

  /** The text is cut at its first `#`, and what is before that at its first `?`; the path is the normal form of the rest. */
  ghost predicate TargetOf(b: bytes, p: Parts) {
    && (exists hasQuery: bool, hasHash: bool :: Rejoins(b, p, hasQuery, hasHash))
    && QUERY !in p.pathOriginal && HASH !in p.pathOriginal && HASH !in p.query
    && p.path == Normalize(Rooted(p.pathOriginal))
  }

  lemma TargetMeans(p: Parts, b: bytes)
    ensures TargetOf(b, WithTarget(p, b))
  {
    hide First, Normalize, Rooted;
    var t, h := WithTarget(p, b), First(b, HASH);
    var q := First(b[..h], QUERY);
    assert b == b[..h] + b[h..] && b[..h] == b[..h][..q] + b[..h][q..];
    assert b[..h][..q] == b[..q] && b[..h][q..] == b[q..h];
    assert q < h ==> b[q..h] == [QUERY] + t.query;
    assert h < |b| ==> b[h..] == [HASH] + t.hash;
    assert forall c :: c in b[..q] ==> c in b[..h];
    assert HASH !in b[..h];
    assert forall c :: c in t.query ==> c in b[..h];
    assert Rejoins(b, t, q < h, h < |b|);
  }

  // ---------- the authority ----------

  /** Without an `@` the whole text is the host; otherwise the first one ends the credentials, which the first
      colon divides into name and password. */
  ghost predicate AuthorityOf(a: bytes, p: Parts) {
    if AT !in a then Lowered(p.host, a) && p.username == [] && p.password == []
    else exists user: bytes, host: bytes :: Divided(a, user, host, p)
  }

  ghost predicate Divided(a: bytes, user: bytes, host: bytes, p: Parts) {
    && a == user + [AT] + host && AT !in user && Lowered(p.host, host)
    && if COLON in user then user == p.username + [COLON] + p.password && COLON !in p.username
       else p.username == user && p.password == []
  }

  lemma AuthorityMeans(p: Parts, a: bytes)
    requires p.username == [] && p.password == []
    ensures AuthorityOf(a, WithAuthority(p, a))
  {
    hide First, Lowered;
    var n := First(a, AT);
    if n == |a| {
      LowersAll(a);
    } else {
      var user, host := a[..n], a[n + 1..];
      var k := First(user, COLON);
      LowersAll(host);
      assert a == user + [AT] + host;
      if k < |user| { assert user == user[..k] + [COLON] + user[k + 1..]; } else { assert user[..k] == user; }
      assert Divided(a, user, host, WithAuthority(p, a));
    }
  }

  lemma SplitOnce(a: bytes, b: bytes, a': bytes, b': bytes, c: byte)
    requires a + [c] + b == a' + [c] + b' && c !in a && c !in a'
    ensures a == a' && b == b'
  {
    var s := a + [c] + b;
    FirstIs(s, c, |a|);
    FirstIs(s, c, |a'|);
    assert s[..|a|] == a && s[..|a'|] == a' && s[|a| + 1..] == b && s[|a'| + 1..] == b';
  }

  /** Name, colon, password, `@` and host are read back as exactly these. */
  lemma Credentials(name: bytes, password: bytes, host: bytes, p: Parts)
    requires AT !in name && COLON !in name && AT !in password && AuthorityOf(name + [COLON] + password + [AT] + host, p)
    ensures p.username == name && p.password == password && Lowered(p.host, host)
  {
    hide Lowered;
    var user := name + [COLON] + password;
    var a := user + [AT] + host;
    assert a[|user|] == AT && user[|name|] == COLON;
    var user', host' :| Divided(a, user', host', p);
    SplitOnce(user, host, user', host', AT);
    SplitOnce(name, password, p.username, p.password, COLON);
  }

  /** So are a name, `@` and a host without a password. */
  lemma NameOnly(name: bytes, host: bytes, p: Parts)
    requires AT !in name && COLON !in name && AuthorityOf(name + [AT] + host, p)
    ensures p.username == name && p.password == [] && Lowered(p.host, host)
  {
    hide Lowered;
    var a := name + [AT] + host;
    assert a[|name|] == AT;
    var user', host' :| Divided(a, user', host', p);
    SplitOnce(name, host, user', host', AT);
  }

  // ---------- requests ----------

  /** No control byte: nothing below the space, and not 127. */
  ghost predicate Visible(uri: bytes) { forall i :: 0 <= i < |uri| ==> uri[i] >= 32 && uri[i] != 127 }

  lemma VisibleAccepted(uri: bytes)
    requires Visible(uri)
    ensures !HasControl(uri)
  {
  }

  lemma FilledIn(scheme: bytes, authority: bytes, target: bytes)
    ensures var p := WithTarget(WithAuthority(NO_PARTS.(scheme := scheme), authority), target);
      p.scheme == scheme && AuthorityOf(authority, p) && TargetOf(target, p)
  {
    var q := NO_PARTS.(scheme := scheme);
    var a := WithAuthority(q, authority);
    AuthorityMeans(q, authority);
    TargetMeans(a, target);
    hide First, Normalize, Rooted, Lowered, WithAuthority;
    var p := WithTarget(a, target);
    assert p.scheme == a.scheme && p.host == a.host && p.username == a.username && p.password == a.password;
    hide WithTarget, TargetOf;
    AuthoritySame(authority, a, p);
    KeepsParts(q, authority, target);
  }

  lemma AuthoritySame(a: bytes, p: Parts, q: Parts)
    requires AuthorityOf(a, p) && q.host == p.host && q.username == p.username && q.password == p.password
    ensures AuthorityOf(a, q)
  {
    if AT in a {
      var user, host :| Divided(a, user, host, p);
      assert Divided(a, user, host, q);
    }
  }

  /** A server's request, a host and a target without `://`: the host is the authority, the target stays whole. */
  lemma HostAndTarget(host: bytes, uri: bytes, tls: bool)
    requires host != [] && Visible(uri) && !Contains(uri, COLON_SLASHES)
    ensures var p := ParseParts(host, uri, tls);
      p.scheme == (if tls then HTTPS else []) && AuthorityOf(host, p) && TargetOf(uri, p)
  {
    VisibleAccepted(uri);
    FilledIn(if tls then HTTPS else [], host, uri);
    hide AuthorityOf, TargetOf, WithTarget, WithAuthority;
    assert LowerAll([]) == [];
  }

  /** The authority of an absolute URI ends at the first slash, or at the first question mark when there is no
      slash, or at the end; then the target is a slash. */
  ghost predicate Divides(rest: bytes, authority: bytes, target: bytes) {
    || (rest == authority + target && SLASH !in authority && target != [] && target[0] == SLASH)
    || (rest == authority + target && SLASH !in rest && QUERY !in authority && target != [] && target[0] == QUERY)
    || (rest == authority && SLASH !in rest && QUERY !in rest && target == [SLASH])
  }

  lemma SplitMeans(host: bytes, scheme: bytes, rest: bytes, authority: bytes, target: bytes)
    requires SchemeAt(scheme + [COLON], |scheme|) && Divides(rest, authority, target)
    ensures SplitHostUri(host, scheme + COLON_SLASHES + rest) == (scheme, authority, target)
  {
    hide First, SchemeLength, SchemeAt;
    var uri := scheme + COLON_SLASHES + rest;
    PrintedText(scheme, rest, []);
    assert scheme + COLON_SLASHES + rest + [] == uri && rest + [] == rest;
    PrintedScheme(scheme, uri);
    DividedAt(rest, authority, target);
    assert SLASHES <= uri[|scheme| + 1..] && |scheme| > 0 by { assert SLASHES + rest == uri[|scheme| + 1..]; ShortScheme(scheme); }
    hide Divides;
  }

  lemma ShortScheme(scheme: bytes)
    requires SchemeAt(scheme + [COLON], |scheme|)
    ensures |scheme| > 0
  {
  }

  lemma DividedAt(rest: bytes, authority: bytes, target: bytes)
    requires Divides(rest, authority, target)
    ensures var k, q := First(rest, SLASH), First(rest, QUERY);
      if k < |rest| then authority == rest[..k] && target == rest[k..]
      else if q < |rest| then authority == rest[..q] && target == rest[q..]
      else authority == rest && target == [SLASH]
  {
    hide First;
    var n := |authority|;
    if SLASH !in rest { FirstIs(rest, SLASH, |rest|); } else { FirstIs(rest, SLASH, n); }
    if SLASH !in rest && QUERY in rest { FirstIs(rest, QUERY, n); }
    if QUERY !in rest { FirstIs(rest, QUERY, |rest|); }
    if n < |rest| { assert rest[..n] == authority && rest[n..] == target; }
  }

  /** An absolute URI: its own scheme and authority count, whatever the host. */
  lemma AbsoluteUri(host: bytes, scheme: bytes, rest: bytes, authority: bytes, target: bytes, tls: bool)
    requires SchemeAt(scheme + [COLON], |scheme|) && Divides(rest, authority, target) && Visible(scheme + COLON_SLASHES + rest)
    ensures var p := ParseParts(host, scheme + COLON_SLASHES + rest, tls);
      (if tls then p.scheme == HTTPS else Lowered(p.scheme, scheme)) && AuthorityOf(authority, p) && TargetOf(target, p)
  {
    var uri := scheme + COLON_SLASHES + rest;
    VisibleAccepted(uri);
    SplitMeans(host, scheme, rest, authority, target);
    FilledIn(if tls then HTTPS else LowerAll(scheme), authority, target);
    LowersAll(scheme);
    assert Occurs(uri, |scheme|, COLON_SLASHES);
    hide AuthorityOf, TargetOf, WithTarget, WithAuthority, SplitHostUri, SchemeAt, Divides, Occurs, HasControl, Visible, Lowered;
  }

  /** Without a host and without a scheme in front of `://` everything is target. */
  lemma TargetAlone(uri: bytes, tls: bool)
    requires Visible(uri) && forall n :: SchemeAt(uri, n) ==> !(SLASHES <= uri[n + 1..])
    ensures var p := ParseParts([], uri, tls);
      p.scheme == (if tls then HTTPS else HTTP) && p.host == [] && TargetOf(uri, p)
  {
    VisibleAccepted(uri);
    assert LowerAll(HTTP) == HTTP;
    FilledIn(if tls then HTTPS else HTTP, [], uri);
    hide TargetOf, WithTarget, WithAuthority;
  }

  /** A control byte anywhere leaves everything empty. */
  lemma ControlRefused(host: bytes, uri: bytes, tls: bool, i: nat)
    requires i < |uri| && (uri[i] < 32 || uri[i] == 127)
    ensures ParseParts(host, uri, tls) == NO_PARTS
  {
    assert IsControl(uri[i]);
  }
}
