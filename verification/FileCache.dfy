/** Which files are served through a descriptor of their own. */
module FileSizes {
  const MAX_SMALL_FILE_SIZE := 2 * 4096
}

/**
 * The static-file handler's cache as a protocol. A state is what the locks protect, and a step is
 * what one session or the cleaner does between taking and giving back a lock, so every interleaving
 * is a sequence of steps. A session is one run of the request handler with the reader it produced.
 */
module FileCache {

  import opened FileSizes

  type FileId = int
  type ReaderId = int
  type Session = nat
  type Path = string
  type Content = string

  /** The fields of an open file, or of a generated directory index, that never change. */
  datatype File = File(content: Content, dirIndex: bool, since: int) {
    predicate Big() { |content| > MAX_SMALL_FILE_SIZE && !dirIndex }
  }

  /** Where a session stands between two critical sections. */
  datatype Phase =
    | Missed(compressed: bool, path: Path)
    | Opened(compressed: bool, path: Path, own: FileId)
    | Lost(own: FileId, file: FileId)
    | Holding(file: FileId)
    | Opening(file: FileId)
    | Small(file: FileId)
    | Large(file: FileId, reader: ReaderId)
    | Dropping(file: FileId)
    | Done
  {
    predicate Has(c: Claim) {
      match c
      case OnFile(f) => !Missed? && !Opened? && !Done? && file == f
      case OnNew(f) => (Opened? || Lost?) && own == f
      case OnReader(r) => Large? && reader == r
    }
  }

  /**
   * What a session can have a claim on: a published file it counts on, a file it opened and has
   * neither published nor released, and a reader it reads from.
   */
  datatype Claim = OnFile(f: FileId) | OnNew(f: FileId) | OnReader(r: ReaderId)

  /**
   * The mutable fields of a file are maps from the file: the readers count, the pooled readers and
   * how often it was released. A reader has its file and is closed so many times. A leaked file is
   * one that was opened and then given up without being closed.
   */
  datatype State = State(
    files: map<FileId, File>, counts: map<FileId, int>, pools: map<FileId, seq<ReaderId>>, releases: multiset<FileId>,
    readers: map<ReaderId, FileId>, closes: multiset<ReaderId>,
    plain: map<Path, FileId>, packed: map<Path, FileId>, published: set<FileId>,
    sessions: map<Session, Phase>,
    pending: seq<FileId>, toRelease: seq<FileId>, leaked: set<FileId>,
    panicked: bool)
  {
    function Cache(compressed: bool): map<Path, FileId> { if compressed then packed else plain }
    function Count(f: FileId): int { Get(counts, f) }
    function Releases(f: FileId): nat { releases[f] }
    function Closes(r: ReaderId): nat { closes[r] }
    function Pool(f: FileId): seq<ReaderId> { if f in pools then pools[f] else [] }
    predicate Big(f: FileId) { f in files && files[f].Big() }
    predicate Cached(f: FileId) { f in plain.Values || f in packed.Values }
    predicate Known(f: FileId) { f in files || f in leaked }
  }

  /** A field that starts at zero. */
  function Get(m: map<FileId, int>, k: FileId): int { if k in m then m[k] else 0 }

  function Add(m: map<FileId, int>, k: FileId, d: int): map<FileId, int> { m[k := Get(m, k) + d] }

  const START := State(map[], map[], map[], multiset{}, map[], multiset{}, map[], map[], {}, map[], [], [], {}, false)

  datatype Step =
    | Lookup(g: Session, compressed: bool, path: Path)
    | OpenFails(g: Session)
    | HeaderFails(g: Session, id: FileId)
    | OpenFile(g: Session, id: FileId, content: Content, dirIndex: bool, now: int)
    | Publish(g: Session)
    | ReleaseOwn(g: Session)
    | NotModified(g: Session)
    | NewReader(g: Session)
    | OpenReader(g: Session, id: ReaderId)
    | OpenReaderFails(g: Session)
    | Close(g: Session, seekOk: bool)
    | Decrement(g: Session)
    | Clean(plainNow: int, packedNow: int, plainKeys: seq<Path>, packedKeys: seq<Path>, keep: int)
    | ReleaseNext

  // ---------- the cleaner's pass ----------

  predicate Distinct<T(==)>(s: seq<T>) { forall i, j :: 0 <= i < j < |s| ==> s[i] != s[j] }

  /** An order in which a range loop may visit a map. */
  predicate Visits(keys: seq<Path>, cache: map<Path, FileId>) {
    Distinct(keys) && (forall k :: k in keys ==> k in cache) && (forall k :: k in cache ==> k in keys)
  }

  predicate Stale(files: map<FileId, File>, f: FileId, now: int, keep: int) {
    f in files && now - files[f].since > keep
  }

  /** The entries of `s` that are counted, or those that are not. */
  function Select(counts: map<FileId, int>, s: seq<FileId>, busy: bool): seq<FileId> {
    if s == [] then [] else
    var rest := Select(counts, s[1..], busy);
    if (Get(counts, s[0]) > 0) == busy then [s[0]] + rest else rest
  }

  /** The stale files in visiting order. */
  function Expired(files: map<FileId, File>, cache: map<Path, FileId>, keys: seq<Path>, now: int, keep: int): seq<FileId>
  {
    if keys == [] then [] else
    var rest := Expired(files, cache, keys[1..], now, keep);
    if keys[0] in cache && Stale(files, cache[keys[0]], now, keep) then [cache[keys[0]]] + rest else rest
  }

  function Fresh(files: map<FileId, File>, cache: map<Path, FileId>, now: int, keep: int): map<Path, FileId> {
    map k | k in cache && !Stale(files, cache[k], now, keep) :: cache[k]
  }

  // ---------- steps ----------

  /** Closes the file and, for a big one, every pooled reader; a directory index has nothing to close. */
  function Release(s: State, f: FileId): State {
    s.(releases := s.releases + multiset{f}, closes := if s.Big(f) then s.closes + multiset(s.Pool(f)) else s.closes)
  }

  function Go(s: State, g: Session, p: Phase): State { s.(sessions := s.sessions[g := p]) }

  function Raise(s: State, f: FileId): State { s.(counts := Add(s.counts, f, 1)) }

  /** Lowers the count; a negative one is a panic. */
  function Lower(s: State, f: FileId): State {
    s.(counts := Add(s.counts, f, -1), panicked := s.panicked || s.Count(f) - 1 < 0)
  }

  predicate Enabled(s: State, t: Step) {
    match t
    case Lookup(g, _, _) => g !in s.sessions
    case OpenFails(g) => g in s.sessions && s.sessions[g].Missed?
    case HeaderFails(g, id) => g in s.sessions && s.sessions[g].Missed? && !s.Known(id)
    case OpenFile(g, id, _, _, _) => g in s.sessions && s.sessions[g].Missed? && !s.Known(id)
    case Publish(g) => g in s.sessions && s.sessions[g].Opened?
    case ReleaseOwn(g) => g in s.sessions && s.sessions[g].Lost?
    case NotModified(g) => g in s.sessions && s.sessions[g].Holding?
    case NewReader(g) => g in s.sessions && s.sessions[g].Holding?
    case OpenReader(g, id) => g in s.sessions && s.sessions[g].Opening? && id !in s.readers
    case OpenReaderFails(g) => g in s.sessions && s.sessions[g].Opening?
    case Close(g, _) => g in s.sessions && (s.sessions[g].Small? || s.sessions[g].Large?)
    case Decrement(g) => g in s.sessions && s.sessions[g].Dropping?
    case Clean(_, _, ks, cs, _) => s.toRelease == [] && Visits(ks, s.plain) && Visits(cs, s.packed)
    case ReleaseNext => s.toRelease != []
  }

  /** Under the lock: a cached file is counted before the lock is given back. */
  function ApplyLookup(s: State, g: Session, compressed: bool, path: Path): (t: State)
    ensures t.releases == s.releases && t.toRelease == s.toRelease && t.leaked == s.leaked
  {
    var cache := s.Cache(compressed);
    if path in cache then Go(Raise(s, cache[path]), g, Holding(cache[path]))
    else Go(s, g, Missed(compressed, path))
  }

  function ApplyOpenFile(s: State, g: Session, id: FileId, content: Content, dirIndex: bool, now: int): (t: State)
    requires g in s.sessions && s.sessions[g].Missed?
    ensures t.releases == s.releases && t.toRelease == s.toRelease && t.leaked == s.leaked
  {
    var p := s.sessions[g];
    Go(s.(files := s.files[id := File(content, dirIndex, now)]), g, Opened(p.compressed, p.path, id))
  }

  /** The file was opened, its header could not be read, and nobody closes it. */
  function Leak(s: State, g: Session, id: FileId): (t: State)
    ensures t.releases == s.releases && t.toRelease == s.toRelease
  {
    Go(s.(leaked := s.leaked + {id}), g, Done)
  }

  /** Under the lock again: publish the file unless another session was faster. */
  function ApplyPublish(s: State, g: Session): (t: State)
    requires g in s.sessions && s.sessions[g].Opened?
    ensures t.releases == s.releases && t.toRelease == s.toRelease && t.leaked == s.leaked
  {
    var p := s.sessions[g];
    var cache := s.Cache(p.compressed);
    if p.path in cache then Go(Raise(s, cache[p.path]), g, Lost(p.own, cache[p.path]))
    else Put(Go(Raise(s, p.own), g, Holding(p.own)), p.compressed, p.path, p.own)
  }

  function Put(s: State, compressed: bool, path: Path, f: FileId): (t: State)
    ensures t.releases == s.releases && t.toRelease == s.toRelease && t.leaked == s.leaked
  {
    if compressed then s.(packed := s.packed[path := f], published := s.published + {f})
    else s.(plain := s.plain[path := f], published := s.published + {f})
  }

  function ApplyNewReader(s: State, g: Session): (t: State)
    requires g in s.sessions && s.sessions[g].Holding?
    ensures t.releases == s.releases && t.toRelease == s.toRelease && t.leaked == s.leaked
  {
    var f := s.sessions[g].file;
    if !s.Big(f) then Go(s, g, Small(f))
    else
      var pool := s.Pool(f);
      if pool == [] then Go(s, g, Opening(f))
      else Go(s.(pools := s.pools[f := pool[..|pool| - 1]]), g, Large(f, pool[|pool| - 1]))
  }

  function ApplyOpenReader(s: State, g: Session, id: ReaderId): (t: State)
    requires g in s.sessions && s.sessions[g].Opening?
    ensures t.releases == s.releases && t.toRelease == s.toRelease && t.leaked == s.leaked
  {
    var f := s.sessions[g].file;
    Go(s.(readers := s.readers[id := f]), g, Large(f, id))
  }

  /** Gives the reader back before the count drops; a reader that cannot seek is closed instead. */
  function ApplyClose(s: State, g: Session, seekOk: bool): (t: State)
    requires g in s.sessions && (s.sessions[g].Small? || s.sessions[g].Large?)
    ensures t.releases == s.releases && t.toRelease == s.toRelease && t.leaked == s.leaked
  {
    var f := s.sessions[g].file;
    if s.sessions[g].Small? then Go(s, g, Dropping(f))
    else
      var r := s.sessions[g].reader;
      Go(if seekOk then s.(pools := s.pools[f := s.Pool(f) + [r]]) else s.(closes := s.closes + multiset{r}), g, Dropping(f))
  }

  /** The pending and the stale files that are counted, or those that are not. */
  function Swept(s: State, now: int, packedNow: int, ks: seq<Path>, cs: seq<Path>, keep: int, busy: bool): seq<FileId> {
    Select(s.counts, s.pending, busy)
    + Select(s.counts, Expired(s.files, s.plain, ks, now, keep), busy)
    + Select(s.counts, Expired(s.files, s.packed, cs, packedNow, keep), busy)
  }

  function ApplyClean(s: State, now: int, packedNow: int, ks: seq<Path>, cs: seq<Path>, keep: int): State {
    s.(plain := Fresh(s.files, s.plain, now, keep), packed := Fresh(s.files, s.packed, packedNow, keep),
       pending := Swept(s, now, packedNow, ks, cs, keep, true),
       toRelease := Swept(s, now, packedNow, ks, cs, keep, false))
  }

  function Apply(s: State, t: Step): State
    requires Enabled(s, t)
  {
    match t
    case Lookup(g, compressed, path) => ApplyLookup(s, g, compressed, path)
    case OpenFails(g) => Go(s, g, Done)
    case HeaderFails(g, id) => Leak(s, g, id)
    case OpenFile(g, id, content, dirIndex, now) => ApplyOpenFile(s, g, id, content, dirIndex, now)
    case Publish(g) => ApplyPublish(s, g)
    case ReleaseOwn(g) => Go(Release(s, s.sessions[g].own), g, Holding(s.sessions[g].file))
    case NotModified(g) => Go(s, g, Dropping(s.sessions[g].file))
    case NewReader(g) => ApplyNewReader(s, g)
    case OpenReader(g, id) => ApplyOpenReader(s, g, id)
    case OpenReaderFails(g) => Go(s, g, Dropping(s.sessions[g].file))
    case Close(g, seekOk) => ApplyClose(s, g, seekOk)
    case Decrement(g) => Go(Lower(s, s.sessions[g].file), g, Done)
    case Clean(now, packedNow, ks, cs, keep) => ApplyClean(s, now, packedNow, ks, cs, keep)
    case ReleaseNext => Release(s, s.toRelease[0]).(toRelease := s.toRelease[1..])
  }

  // ---------- the invariant ----------

  function Claimants(sessions: map<Session, Phase>, c: Claim): set<Session> {
    set g | g in sessions && sessions[g].Has(c)
  }

  function Claims(sessions: map<Session, Phase>, c: Claim): nat { |Claimants(sessions, c)| }

  predicate Injective(m: map<Path, FileId>) { forall k, l :: k in m && l in m && m[k] == m[l] ==> k == l }

  /** The places of a published file never overlap, and no place holds a file twice. */
  ghost predicate Places(s: State) {
    && Injective(s.plain) && Injective(s.packed) && s.plain.Values !! s.packed.Values
    && Distinct(s.pending) && Distinct(s.toRelease)
    && (forall f :: f in s.pending ==> !s.Cached(f) && f !in s.toRelease)
    && (forall f :: f in s.toRelease ==> !s.Cached(f))
    && (forall f :: s.Cached(f) || f in s.pending || f in s.toRelease ==> f in s.published)
    && (forall f :: f in s.published ==>
          f in s.files && s.Releases(f) == if s.Cached(f) || f in s.pending || f in s.toRelease then 0 else 1)
  }

  /** An opened file that was not published has one owner, or was released by it; a leaked one has none. */
  ghost predicate Ownership(s: State) {
    && s.leaked !! s.files.Keys
    && forall f ::
      if f in s.files && f !in s.published then Claims(s.sessions, OnNew(f)) + s.Releases(f) == 1
      else Claims(s.sessions, OnNew(f)) == 0 && (f !in s.files ==> s.Releases(f) == 0)
  }

  /** The count of a file is the number of its holders, and only cached or pending files have any. */
  ghost predicate Counts(s: State) {
    && !s.panicked
    && (forall f :: s.Count(f) == Claims(s.sessions, OnFile(f)))
    && (forall f :: s.Count(f) > 0 ==> s.Cached(f) || f in s.pending)
  }

  /** A reader is pooled by its file, in the hands of one session, or closed; a released pool is closed. */
  ghost predicate Accounted(s: State, r: ReaderId) {
    if r !in s.readers then Claims(s.sessions, OnReader(r)) == 0 && s.Closes(r) == 0 && forall f :: r !in s.Pool(f)
    else
      var f := s.readers[r];
      && s.Big(f) && (forall x :: r in s.Pool(x) ==> x == f)
      && (forall g :: g in s.sessions && s.sessions[g].Has(OnReader(r)) ==> s.sessions[g].file == f)
      && Claims(s.sessions, OnReader(r)) + s.Closes(r) == if r in s.Pool(f) then s.Releases(f) else 1
  }

  ghost predicate Readers(s: State) {
    && (forall r :: Accounted(s, r))
    && (forall f :: Distinct(s.Pool(f)))
    && (forall g :: g in s.sessions && s.sessions[g].Opening? ==> s.Big(s.sessions[g].file))
  }

  ghost predicate Inv(s: State) { Places(s) && Ownership(s) && Counts(s) && Readers(s) }

  // ---------- lists and counts ----------

  function One(b: bool): nat { if b then 1 else 0 }

  /** Moving one session changes each tally by what it gives up and what it takes. */
  lemma Move(sessions: map<Session, Phase>, g: Session, p: Phase)
    ensures forall c :: Claims(sessions[g := p], c) ==
              Claims(sessions, c) - One(g in sessions && sessions[g].Has(c)) + One(p.Has(c))
  {
    forall c ensures Claims(sessions[g := p], c) ==
              Claims(sessions, c) - One(g in sessions && sessions[g].Has(c)) + One(p.Has(c))
    {
      var all := Claimants(sessions, c);
      var rest := all - {g};
      assert Claimants(sessions[g := p], c) == if p.Has(c) then rest + {g} else rest;
      assert all == if g in sessions && sessions[g].Has(c) then rest + {g} else rest;
    }
  }

  /** A claim counts. */
  lemma Claimed(sessions: map<Session, Phase>, g: Session, c: Claim)
    requires g in sessions && sessions[g].Has(c)
    ensures Claims(sessions, c) > 0
  {
    assert g in Claimants(sessions, c);
  }

  lemma {:induction false} SelectKeeps(counts: map<FileId, int>, s: seq<FileId>, busy: bool)
    ensures forall f :: f in Select(counts, s, busy) <==> f in s && (Get(counts, f) > 0) == busy
    ensures Distinct(s) ==> Distinct(Select(counts, s, busy))
  {
    if s != [] {
      SelectKeeps(counts, s[1..], busy);
      assert s == [s[0]] + s[1..];
      if Distinct(s) {
        assert Distinct(s[1..]);
        assert s[0] !in s[1..];
      }
    }
  }

  lemma {:induction false} ExpiredFiles(files: map<FileId, File>, cache: map<Path, FileId>, keys: seq<Path>, now: int, keep: int)
    requires forall k :: k in keys ==> k in cache
    ensures forall f :: f in Expired(files, cache, keys, now, keep) <==> exists k :: k in keys && cache[k] == f && Stale(files, f, now, keep)
    ensures Distinct(keys) && Injective(cache) ==> Distinct(Expired(files, cache, keys, now, keep))
  {
    if keys != [] {
      ExpiredFiles(files, cache, keys[1..], now, keep);
      assert keys == [keys[0]] + keys[1..];
      if Distinct(keys) && Injective(cache) {
        assert Distinct(keys[1..]);
        assert keys[0] !in keys[1..];
        assert cache[keys[0]] !in Expired(files, cache, keys[1..], now, keep);
      }
    }
  }

  /** Sweeping a cache keeps the fresh entries and lists the others once each. */
  lemma SweepSplits(files: map<FileId, File>, cache: map<Path, FileId>, keys: seq<Path>, now: int, keep: int)
    requires Visits(keys, cache) && Injective(cache)
    ensures var stale := Expired(files, cache, keys, now, keep);
      var kept := Fresh(files, cache, now, keep);
      && Distinct(stale) && Injective(kept)
      && (forall f :: f in stale ==> f !in kept.Values)
      && (forall f :: f in cache.Values <==> f in stale || f in kept.Values)
  {
    ExpiredFiles(files, cache, keys, now, keep);
    var stale := Expired(files, cache, keys, now, keep);
    var kept := Fresh(files, cache, now, keep);
    forall f | f in cache.Values ensures f in stale || f in kept.Values {
      var k :| k in cache && cache[k] == f;
      assert k in keys;
      if !Stale(files, f, now, keep) { assert k in kept && kept[k] == f; }
    }
    forall f | f in stale ensures f in cache.Values && f !in kept.Values {
      var k :| k in keys && cache[k] == f && Stale(files, f, now, keep);
    }
    forall f | f in kept.Values ensures f in cache.Values {
      var k :| k in kept && kept[k] == f;
      assert cache[k] == f;
    }
  }

  // ---------- every step keeps the places ----------

  /** The files a cache holds after one more entry. */
  lemma ValuesAfter(cache: map<Path, FileId>, path: Path, f: FileId)
    requires path !in cache
    ensures cache[path := f].Values == cache.Values + {f}
  {
    var after := cache[path := f];
    assert after[path] == f;
    forall x | x in cache.Values ensures x in after.Values {
      var k :| k in cache && cache[k] == x;
      assert after[k] == x;
    }
  }

  /** One more published file, in a cache slot of its own. */
  lemma PlacesAdd(s: State, t: State, f: FileId)
    requires Places(s) && f in s.files && f !in s.published && s.Releases(f) == 0
    requires Injective(t.plain) && Injective(t.packed) && t.plain.Values !! t.packed.Values
    requires forall x :: t.Cached(x) <==> s.Cached(x) || x == f
    requires t.published == s.published + {f} && t.pending == s.pending && t.toRelease == s.toRelease
    requires t.files == s.files && t.releases == s.releases
    ensures Places(t)
  {
    assert forall x :: t.Releases(x) == s.Releases(x);
    hide State.Cached, State.Releases, Injective, Distinct;
  }

  /** A file the session opened is open, nowhere and not released. */
  lemma OwnFile(s: State, g: Session)
    requires Ownership(s) && g in s.sessions && (s.sessions[g].Opened? || s.sessions[g].Lost?)
    ensures s.sessions[g].own in s.files && s.sessions[g].own !in s.published && s.Releases(s.sessions[g].own) == 0
  {
    Claimed(s.sessions, g, OnNew(s.sessions[g].own));
  }

  lemma PlacesPublish(s: State, g: Session)
    requires Places(s) && Ownership(s) && g in s.sessions && s.sessions[g].Opened?
    ensures Places(ApplyPublish(s, g))
  {
    OwnFile(s, g);
    hide Places, Ownership, State.Cached, State.Releases, Add;
    var p := s.sessions[g];
    if p.path in s.Cache(p.compressed) {
      PlacesSame(s, ApplyPublish(s, g));
    } else {
      PlacesWin(s, g);
    }
  }

  /** The slot was free and the file nowhere. */
  lemma PlacesWin(s: State, g: Session)
    requires Places(s) && g in s.sessions && s.sessions[g].Opened?
    requires var p := s.sessions[g];
      p.path !in s.Cache(p.compressed) && p.own in s.files && p.own !in s.published && s.Releases(p.own) == 0
    ensures Places(ApplyPublish(s, g))
  {
    var p := s.sessions[g];
    var t := ApplyPublish(s, g);
    assert !s.Cached(p.own);
    ValuesAfter(s.Cache(p.compressed), p.path, p.own);
    PlacesAdd(s, t, p.own);
  }

  /** Nothing moved between the places. */
  lemma PlacesSame(s: State, t: State)
    requires Places(s) && t.plain == s.plain && t.packed == s.packed && t.published == s.published
    requires t.pending == s.pending && t.toRelease == s.toRelease && s.files.Keys <= t.files.Keys
    requires t.releases == s.releases
    ensures Places(t)
  {
    assert forall f :: t.Cached(f) == s.Cached(f) && t.Releases(f) == s.Releases(f);
    hide State.Cached, State.Releases, Injective, Distinct;
  }

  lemma PlacesReleaseNext(s: State)
    requires Places(s) && s.toRelease != []
    ensures Places(Apply(s, ReleaseNext))
  {
    var t := Apply(s, ReleaseNext);
    assert s.toRelease == [s.toRelease[0]] + t.toRelease;
    assert s.toRelease[0] !in t.toRelease;
    assert Distinct(t.toRelease);
  }

  lemma DistinctAppend(a: seq<FileId>, b: seq<FileId>)
    requires Distinct(a) && Distinct(b) && (forall f :: f in a ==> f !in b)
    ensures Distinct(a + b)
  {
    var all := a + b;
    forall i, j | 0 <= i < j < |all| ensures all[i] != all[j] {
      if i < |a| <= j {
        assert all[i] == a[i] && all[j] == b[j - |a|];
        assert a[i] in a && b[j - |a|] in b;
      }
    }
  }

  lemma SelectParts(counts: map<FileId, int>, a: seq<FileId>, b: seq<FileId>, c: seq<FileId>, busy: bool)
    requires Distinct(a) && Distinct(b) && Distinct(c)
    requires forall f :: f in a ==> f !in b && f !in c
    requires forall f :: f in b ==> f !in c
    ensures var all := Select(counts, a, busy) + Select(counts, b, busy) + Select(counts, c, busy);
      && Distinct(all)
      && (forall f :: f in all <==> (f in a || f in b || f in c) && (Get(counts, f) > 0) == busy)
  {
    SelectKeeps(counts, a, busy);
    SelectKeeps(counts, b, busy);
    SelectKeeps(counts, c, busy);
    DistinctAppend(Select(counts, a, busy), Select(counts, b, busy));
    DistinctAppend(Select(counts, a, busy) + Select(counts, b, busy), Select(counts, c, busy));
  }

  lemma CleanCaches(s: State, now: int, packedNow: int, ks: seq<Path>, cs: seq<Path>, keep: int)
    requires Places(s) && Visits(ks, s.plain) && Visits(cs, s.packed)
    ensures var t := ApplyClean(s, now, packedNow, ks, cs, keep);
      && Injective(t.plain) && Injective(t.packed) && t.plain.Values <= s.plain.Values && t.packed.Values <= s.packed.Values
  {
    SweepSplits(s.files, s.plain, ks, now, keep);
    SweepSplits(s.files, s.packed, cs, packedNow, keep);
    hide Expired, Fresh, Swept, Injective, Distinct, Get, Stale;
  }

  /** A pass takes the old pending files and the swept ones, and sorts them by their count. */
  lemma CleanMoves(s: State, now: int, packedNow: int, ks: seq<Path>, cs: seq<Path>, keep: int, busy: bool)
    requires Places(s) && Visits(ks, s.plain) && Visits(cs, s.packed)
    ensures var t := ApplyClean(s, now, packedNow, ks, cs, keep);
      var moved := Swept(s, now, packedNow, ks, cs, keep, busy);
      && Distinct(moved)
      && (forall f :: f in moved <==> (f in s.pending || s.Cached(f)) && !t.Cached(f) && (s.Count(f) > 0) == busy)
  {
    var stale := Expired(s.files, s.plain, ks, now, keep);
    var stalePacked := Expired(s.files, s.packed, cs, packedNow, keep);
    SweepSplits(s.files, s.plain, ks, now, keep);
    SweepSplits(s.files, s.packed, cs, packedNow, keep);
    SelectParts(s.counts, s.pending, stale, stalePacked, busy);
    var t := ApplyClean(s, now, packedNow, ks, cs, keep);
    forall f ensures f in s.pending || f in stale || f in stalePacked <==> (f in s.pending || s.Cached(f)) && !t.Cached(f) {
      hide Expired, Fresh, Select, Injective, Distinct, Get, Stale, Swept;
    }
    hide Expired, Fresh, Select, Injective, Distinct, Stale, State.Cached;
  }

  lemma PlacesClean(s: State, now: int, packedNow: int, ks: seq<Path>, cs: seq<Path>, keep: int)
    requires Places(s) && s.toRelease == [] && Visits(ks, s.plain) && Visits(cs, s.packed)
    ensures Places(ApplyClean(s, now, packedNow, ks, cs, keep))
  {
    hide Swept, Fresh, Places, Injective, Distinct, Get, Visits;
    CleanCaches(s, now, packedNow, ks, cs, keep);
    CleanMoves(s, now, packedNow, ks, cs, keep, true);
    CleanMoves(s, now, packedNow, ks, cs, keep, false);
    PlacesSwept(s, ApplyClean(s, now, packedNow, ks, cs, keep));
  }

  /** Files moved out of the caches, to the one list or the other. */
  lemma PlacesSwept(s: State, t: State)
    requires Places(s) && s.toRelease == []
    requires t.files == s.files && t.published == s.published && t.releases == s.releases
    requires Injective(t.plain) && Injective(t.packed) && t.plain.Values <= s.plain.Values && t.packed.Values <= s.packed.Values
    requires Distinct(t.pending) && Distinct(t.toRelease)
    requires forall f :: f in t.pending <==> (f in s.pending || s.Cached(f)) && !t.Cached(f) && s.Count(f) > 0
    requires forall f :: f in t.toRelease <==> (f in s.pending || s.Cached(f)) && !t.Cached(f) && s.Count(f) <= 0
    ensures Places(t)
  {
    assert forall f :: t.Releases(f) == s.Releases(f) && (t.Cached(f) ==> s.Cached(f));
    assert t.plain.Values !! t.packed.Values;
    hide State.Releases, State.Cached, State.Count, Injective, Distinct;
  }

  // ---------- every step keeps the invariant ----------

  /** The tallies after the session `g` moved. */
  ghost predicate Moved(s: State, t: State, g: Session) {
    && g in t.sessions && t.sessions == s.sessions[g := t.sessions[g]]
    && forall c :: Claims(t.sessions, c) == Claims(s.sessions, c) - One(Had(s, g, c)) + One(t.sessions[g].Has(c))
  }

  predicate Had(s: State, g: Session, c: Claim) { g in s.sessions && s.sessions[g].Has(c) }

  lemma SessionMoved(s: State, t: State, g: Session, p: Phase)
    requires t.sessions == s.sessions[g := p]
    ensures Moved(s, t, g) && t.sessions[g] == p
  {
    Move(s.sessions, g, p);
  }

  /** The session opened no file and gave none up. */
  lemma OwnershipSame(s: State, t: State, g: Session)
    requires Ownership(s) && Moved(s, t, g)
    requires t.files == s.files && t.published == s.published && t.releases == s.releases
    requires t.leaked == s.leaked || t.leaked !! t.files.Keys
    requires forall f :: t.sessions[g].Has(OnNew(f)) == Had(s, g, OnNew(f))
    ensures Ownership(t)
  {
    hide Claims;
  }

  lemma CountsSame(s: State, t: State, g: Session)
    requires Counts(s) && Moved(s, t, g)
    requires t.counts == s.counts && t.plain == s.plain && t.packed == s.packed && t.pending == s.pending && t.panicked == s.panicked
    requires forall f :: t.sessions[g].Has(OnFile(f)) == Had(s, g, OnFile(f))
    ensures Counts(t)
  {
    hide Claims;
  }

  /** The session starts counting on `f`. */
  lemma CountsRaise(s: State, t: State, g: Session, f: FileId)
    requires Counts(s) && Moved(s, t, g)
    requires t.counts == Add(s.counts, f, 1) && t.panicked == s.panicked
    requires forall x :: s.Cached(x) || x in s.pending ==> t.Cached(x) || x in t.pending
    requires t.Cached(f)
    requires forall x :: !Had(s, g, OnFile(x)) && (t.sessions[g].Has(OnFile(x)) <==> x == f)
    ensures Counts(t)
  {
    hide Claims, State.Cached;
  }

  /** The session stops counting on `f`. */
  lemma CountsLower(s: State, t: State, g: Session, f: FileId)
    requires Counts(s) && Moved(s, t, g) && t.sessions[g].Done? && g in s.sessions && s.sessions[g] == Dropping(f)
    requires t.counts == Add(s.counts, f, -1) && t.panicked == (s.panicked || s.Count(f) - 1 < 0)
    requires t.plain == s.plain && t.packed == s.packed && t.pending == s.pending
    ensures Counts(t)
  {
    Claimed(s.sessions, g, OnFile(f));
    hide Claims;
  }

  /** A session opened a file of its own. */
  lemma OwnershipOpen(s: State, t: State, g: Session, f: FileId)
    requires Ownership(s) && Moved(s, t, g) && !s.Known(f) && f !in s.published && t.leaked == s.leaked
    requires t.files.Keys == s.files.Keys + {f} && t.published == s.published && t.releases == s.releases
    requires forall x :: !Had(s, g, OnNew(x)) && (t.sessions[g].Has(OnNew(x)) <==> x == f)
    ensures Ownership(t)
  {
    hide Claims;
  }

  /** The owner published its file or released it. */
  lemma OwnershipEnds(s: State, t: State, g: Session, f: FileId)
    requires Ownership(s) && Moved(s, t, g) && t.files == s.files && t.leaked == s.leaked
    requires || (t.published == s.published + {f} && t.releases == s.releases)
             || (t.published == s.published && t.releases == s.releases + multiset{f})
    requires forall x :: !t.sessions[g].Has(OnNew(x)) && (Had(s, g, OnNew(x)) <==> x == f)
    ensures Ownership(t)
  {
    assert s.sessions[g].Has(OnNew(f));
    Claimed(s.sessions, g, OnNew(f));
    hide Claims;
  }

  /** A file on its way out has no holder, so its pool is all that is left to close. */
  lemma OwnershipPublished(s: State, t: State, f: FileId)
    requires Ownership(s) && t.sessions == s.sessions && t.files == s.files && t.published == s.published
    requires f in s.published && f in s.files && t.releases == s.releases + multiset{f} && t.leaked == s.leaked
    ensures Ownership(t)
  {
    hide Claims;
  }

  /** Nobody's reader changes. */
  lemma ReadersSame(s: State, t: State, g: Session)
    requires Readers(s) && Moved(s, t, g)
    requires s.files.Keys <= t.files.Keys && (forall f :: f in s.files ==> t.files[f] == s.files[f])
    requires t.pools == s.pools && t.releases == s.releases && t.readers == s.readers && t.closes == s.closes
    requires !t.sessions[g].Large? && (g in s.sessions ==> !s.sessions[g].Large?)
    requires t.sessions[g].Opening? ==> t.Big(t.sessions[g].file)
    ensures Readers(t)
  {
    assert forall f :: t.Pool(f) == s.Pool(f) && t.Releases(f) == s.Releases(f);
    forall r ensures Accounted(t, r) {
      assert Accounted(s, r);
      assert Claims(t.sessions, OnReader(r)) == Claims(s.sessions, OnReader(r));
      hide Claims;
    }
  }

  /** Releasing a file closes its pooled readers exactly as often as it is released. */
  lemma ReadersRelease(s: State, f: FileId)
    requires Readers(s)
    ensures Readers(Release(s, f))
  {
    var t := Release(s, f);
    assert forall x :: t.Pool(x) == s.Pool(x) && t.Releases(x) == s.Releases(x) + One(x == f);
    forall r ensures Accounted(t, r) {
      assert Accounted(s, r);
      TimesIn(s.Pool(f), r);
      assert t.Closes(r) == s.Closes(r) + One(r in s.Pool(f) && s.Big(f));
      hide Claims, Distinct;
    }
  }

  /** The session puts its reader into the pool. */
  lemma ReadersPush(s: State, g: Session)
    requires Readers(s) && g in s.sessions && s.sessions[g].Large? && s.Releases(s.sessions[g].file) == 0
    ensures Readers(ApplyClose(s, g, true))
  {
    var p := s.sessions[g];
    var t := ApplyClose(s, g, true);
    assert p.reader !in s.Pool(p.file) by {
      Claimed(s.sessions, g, OnReader(p.reader));
      assert Accounted(s, p.reader);
    }
    forall r ensures Accounted(t, r) { PushAccounted(s, g, r); }
    assert forall f :: t.Pool(f) == if f == p.file then s.Pool(f) + [p.reader] else s.Pool(f);
    DistinctAppend(s.Pool(p.file), [p.reader]);
    hide Accounted, Distinct;
  }

  lemma PushAccounted(s: State, g: Session, r: ReaderId)
    requires Accounted(s, r) && g in s.sessions && s.sessions[g].Large? && s.Releases(s.sessions[g].file) == 0
    ensures Accounted(ApplyClose(s, g, true), r)
  {
    var p := s.sessions[g];
    var t := ApplyClose(s, g, true);
    assert t == s.(pools := t.pools, sessions := s.sessions[g := Dropping(p.file)]);
    assert forall f :: t.Pool(f) == s.Pool(f) + if f == p.file then [p.reader] else [];
    hide ApplyClose, State.Pool, Claims;
    Move(s.sessions, g, Dropping(p.file));
    if p.reader == r { Claimed(s.sessions, g, OnReader(r)); }
  }

  /** The session takes the last reader of the pool. */
  lemma ReadersPop(s: State, g: Session)
    requires Readers(s) && g in s.sessions && s.sessions[g].Holding?
    requires var f := s.sessions[g].file; s.Big(f) && s.Pool(f) != [] && s.Releases(f) == 0
    ensures Readers(ApplyNewReader(s, g))
  {
    var t := ApplyNewReader(s, g);
    forall r ensures Accounted(t, r) { PopAccounted(s, g, r); }
    var f := s.sessions[g].file;
    assert forall x :: t.Pool(x) == if x == f then s.Pool(f)[..|s.Pool(f)| - 1] else s.Pool(x);
    hide Accounted;
  }

  lemma PopAccounted(s: State, g: Session, r: ReaderId)
    requires Readers(s) && g in s.sessions && s.sessions[g].Holding?
    requires var f := s.sessions[g].file; s.Big(f) && s.Pool(f) != [] && s.Releases(f) == 0
    ensures Accounted(ApplyNewReader(s, g), r)
  {
    var f := s.sessions[g].file;
    var pool := s.Pool(f);
    var t := ApplyNewReader(s, g);
    assert Accounted(s, r) && Accounted(s, pool[|pool| - 1]) && Distinct(pool);
    hide Readers;
    var last := pool[|pool| - 1];
    assert t == s.(pools := s.pools[f := pool[..|pool| - 1]], sessions := s.sessions[g := Large(f, last)]);
    hide ApplyNewReader;
    assert pool == t.Pool(f) + [last] && last !in t.Pool(f);
    assert forall x :: x != f ==> t.Pool(x) == s.Pool(x);
    hide Claims, Distinct, State.Pool;
    Move(s.sessions, g, Large(f, last));
  }

  lemma ReadersOpen(s: State, g: Session, id: ReaderId)
    requires Readers(s) && g in s.sessions && s.sessions[g].Opening? && id !in s.readers
    ensures Readers(ApplyOpenReader(s, g, id))
  {
    var t := ApplyOpenReader(s, g, id);
    assert forall f :: t.Pool(f) == s.Pool(f);
    forall r ensures Accounted(t, r) {
      assert Accounted(s, r);
      Move(s.sessions, g, t.sessions[g]);
      if r == id && exists h :: h in s.sessions && s.sessions[h].Has(OnReader(r)) {
        var h :| h in s.sessions && s.sessions[h].Has(OnReader(r));
        Claimed(s.sessions, h, OnReader(r));
      }
      hide Claims;
    }
    hide Accounted;
  }

  /** The reader could not be rewound and is closed. */
  lemma ReadersClose(s: State, g: Session)
    requires Readers(s) && g in s.sessions && s.sessions[g].Large? && s.Releases(s.sessions[g].file) == 0
    ensures Readers(ApplyClose(s, g, false))
  {
    var p := s.sessions[g];
    var t := ApplyClose(s, g, false);
    assert forall f :: t.Pool(f) == s.Pool(f);
    Claimed(s.sessions, g, OnReader(p.reader));
    forall r ensures Accounted(t, r) {
      assert Accounted(s, r);
      Move(s.sessions, g, t.sessions[g]);
      hide Claims;
    }
    hide Accounted;
  }

  // ---------- one lemma a step ----------

  lemma LookupKeeps(s: State, g: Session, compressed: bool, path: Path)
    requires Inv(s) && g !in s.sessions
    ensures Inv(ApplyLookup(s, g, compressed, path))
  {
    hide Places, Ownership, Counts, Readers, Moved;
    var cache := s.Cache(compressed);
    if path in cache {
      HitKeeps(s, Go(Raise(s, cache[path]), g, Holding(cache[path])), g, cache[path], Holding(cache[path]));
    } else {
      GoKeeps(s, g, Missed(compressed, path));
    }
  }

  /** A session moves without taking or giving up anything. */
  lemma GoKeeps(s: State, g: Session, p: Phase)
    requires Inv(s) && forall c :: p.Has(c) == Had(s, g, c)
    requires !p.Large? && (g in s.sessions ==> !s.sessions[g].Large?)
    requires p.Opening? ==> s.Big(p.file)
    ensures Inv(Go(s, g, p))
  {
    hide Places, Ownership, Counts, Readers, Moved;
    var t := Go(s, g, p);
    SessionMoved(s, t, g, p);
    ReadersSame(s, t, g);
    PlacesSame(s, t);
    OwnershipSame(s, t, g);
    CountsSame(s, t, g);
  }

  lemma HitKeeps(s: State, t: State, g: Session, f: FileId, p: Phase)
    requires Inv(s) && s.Cached(f) && t == Go(Raise(s, f), g, p)
    requires !p.Large? && !p.Opening? && (g in s.sessions ==> !s.sessions[g].Large?)
    requires forall x :: !Had(s, g, OnFile(x)) && (p.Has(OnFile(x)) <==> x == f)
    requires forall x :: p.Has(OnNew(x)) == Had(s, g, OnNew(x))
    ensures Inv(t)
  {
    hide Places, Ownership, Counts, Readers, Moved;
    SessionMoved(s, t, g, p);
    ReadersSame(s, t, g);
    PlacesSame(s, t);
    OwnershipSame(s, t, g);
    CountsRaise(s, t, g, f);
  }

  lemma LeakKeeps(s: State, g: Session, id: FileId)
    requires Inv(s) && g in s.sessions && s.sessions[g].Missed? && !s.Known(id)
    ensures Inv(Leak(s, g, id))
  {
    assert s.leaked !! s.files.Keys;
    hide Places, Ownership, Counts, Readers, Moved;
    var t := Leak(s, g, id);
    SessionMoved(s, t, g, Done);
    ReadersSame(s, t, g);
    PlacesSame(s, t);
    OwnershipSame(s, t, g);
    CountsSame(s, t, g);
  }

  lemma OpenFileKeeps(s: State, g: Session, id: FileId, content: Content, dirIndex: bool, now: int)
    requires Inv(s) && g in s.sessions && s.sessions[g].Missed? && !s.Known(id)
    ensures Inv(ApplyOpenFile(s, g, id, content, dirIndex, now))
  {
    assert id !in s.published;
    hide Places, Ownership, Counts, Readers, Moved;
    var t := ApplyOpenFile(s, g, id, content, dirIndex, now);
    SessionMoved(s, t, g, t.sessions[g]);
    ReadersSame(s, t, g);
    PlacesSame(s, t);
    OwnershipOpen(s, t, g, id);
    CountsSame(s, t, g);
  }

  lemma PublishKeeps(s: State, g: Session)
    requires Inv(s) && g in s.sessions && s.sessions[g].Opened?
    ensures Inv(ApplyPublish(s, g))
  {
    hide Places, Ownership, Counts, Readers, Moved;
    var p := s.sessions[g];
    var cache := s.Cache(p.compressed);
    if p.path in cache {
      HitKeeps(s, ApplyPublish(s, g), g, cache[p.path], Lost(p.own, cache[p.path]));
    } else {
      WinKeeps(s, g);
    }
  }

  /** The slot is still free. */
  lemma WinKeeps(s: State, g: Session)
    requires Inv(s) && g in s.sessions && s.sessions[g].Opened? && s.sessions[g].path !in s.Cache(s.sessions[g].compressed)
    ensures Inv(ApplyPublish(s, g))
  {
    hide Places, Ownership, Counts, Readers, Moved;
    var p := s.sessions[g];
    var t := ApplyPublish(s, g);
    PlacesPublish(s, g);
    SessionMoved(s, t, g, Holding(p.own));
    ReadersSame(s, t, g);
    OwnershipEnds(s, t, g, p.own);
    WinCounts(s, t, g);
  }

  lemma WinCounts(s: State, t: State, g: Session)
    requires Counts(s) && g in s.sessions && s.sessions[g].Opened? && s.sessions[g].path !in s.Cache(s.sessions[g].compressed)
    requires t == ApplyPublish(s, g) && Moved(s, t, g)
    ensures Counts(t)
  {
    hide Counts, Moved;
    var p := s.sessions[g];
    ValuesAfter(s.Cache(p.compressed), p.path, p.own);
    CountsRaise(s, t, g, p.own);
  }

  lemma ReleaseOwnKeeps(s: State, g: Session)
    requires Inv(s) && g in s.sessions && s.sessions[g].Lost?
    ensures Inv(Apply(s, ReleaseOwn(g)))
  {
    hide Places, Ownership, Counts, Readers, Moved;
    OwnFile(s, g);
    var p := s.sessions[g];
    var u := Release(s, p.own);
    var t := Go(u, g, Holding(p.file));
    ReadersRelease(s, p.own);
    SessionMoved(u, t, g, Holding(p.file));
    SessionMoved(s, t, g, Holding(p.file));
    ReadersSame(u, t, g);
    PlacesLost(s, t, p.own);
    OwnershipEnds(s, t, g, p.own);
    CountsSame(s, t, g);
  }

  /** Releasing an unpublished file leaves the published ones alone. */
  lemma PlacesLost(s: State, t: State, f: FileId)
    requires Places(s) && t.plain == s.plain && t.packed == s.packed && t.published == s.published && f !in s.published
    requires t.pending == s.pending && t.toRelease == s.toRelease && t.files == s.files && t.releases == s.releases + multiset{f}
    ensures Places(t)
  {
    assert forall x :: t.Cached(x) == s.Cached(x) && (x != f ==> t.Releases(x) == s.Releases(x));
    hide State.Cached, State.Releases, Injective, Distinct;
  }

  /** A held file is in a cache or pending, hence not released. */
  lemma HeldFile(s: State, g: Session, f: FileId)
    requires Places(s) && Counts(s) && Had(s, g, OnFile(f))
    ensures f in s.files && s.Releases(f) == 0 && (s.Cached(f) || f in s.pending)
  {
    Claimed(s.sessions, g, OnFile(f));
    hide Claims, State.Cached, State.Releases, Injective, Distinct;
  }

  lemma NewReaderKeeps(s: State, g: Session)
    requires Inv(s) && g in s.sessions && s.sessions[g].Holding?
    ensures Inv(ApplyNewReader(s, g))
  {
    var f := s.sessions[g].file;
    hide Places, Ownership, Counts, Readers, Moved;
    HeldFile(s, g, f);
    if !s.Big(f) {
      GoKeeps(s, g, Small(f));
    } else if s.Pool(f) == [] {
      GoKeeps(s, g, Opening(f));
    } else {
      ReadersPop(s, g);
      RestKeeps(s, ApplyNewReader(s, g), g);
    }
  }

  /** The session keeps its file; only readers move. */
  lemma RestKeeps(s: State, t: State, g: Session)
    requires Inv(s) && g in t.sessions && t.sessions == s.sessions[g := t.sessions[g]]
    requires forall x :: t.sessions[g].Has(OnFile(x)) == Had(s, g, OnFile(x)) && t.sessions[g].Has(OnNew(x)) == Had(s, g, OnNew(x))
    requires t == s.(sessions := t.sessions, pools := t.pools, readers := t.readers, closes := t.closes)
    requires Readers(t)
    ensures Inv(t)
  {
    hide Places, Ownership, Counts, Readers, Moved;
    SessionMoved(s, t, g, t.sessions[g]);
    PlacesSame(s, t);
    OwnershipSame(s, t, g);
    CountsSame(s, t, g);
  }

  lemma OpenReaderKeeps(s: State, g: Session, id: ReaderId)
    requires Inv(s) && g in s.sessions && s.sessions[g].Opening? && id !in s.readers
    ensures Inv(ApplyOpenReader(s, g, id))
  {
    hide Places, Ownership, Counts, Readers, Moved;
    ReadersOpen(s, g, id);
    RestKeeps(s, ApplyOpenReader(s, g, id), g);
  }

  lemma CloseKeeps(s: State, g: Session, seekOk: bool)
    requires Inv(s) && g in s.sessions && (s.sessions[g].Small? || s.sessions[g].Large?)
    ensures Inv(ApplyClose(s, g, seekOk))
  {
    var f := s.sessions[g].file;
    hide Places, Ownership, Counts, Readers, Moved;
    HeldFile(s, g, f);
    if s.sessions[g].Small? {
      GoKeeps(s, g, Dropping(f));
    } else {
      GivenBackKeeps(s, g, seekOk);
    }
  }

  lemma GivenBackKeeps(s: State, g: Session, seekOk: bool)
    requires Inv(s) && g in s.sessions && s.sessions[g].Large? && s.Releases(s.sessions[g].file) == 0
    ensures Inv(ApplyClose(s, g, seekOk))
  {
    hide Places, Ownership, Counts, Readers, Moved;
    if seekOk { ReadersPush(s, g); } else { ReadersClose(s, g); }
    RestKeeps(s, ApplyClose(s, g, seekOk), g);
  }

  lemma DecrementKeeps(s: State, g: Session)
    requires Inv(s) && g in s.sessions && s.sessions[g].Dropping?
    ensures Inv(Apply(s, Decrement(g)))
  {
    hide Places, Ownership, Counts, Readers, Moved;
    var t := Apply(s, Decrement(g));
    SessionMoved(s, t, g, Done);
    ReadersSame(s, t, g);
    PlacesSame(s, t);
    OwnershipSame(s, t, g);
    CountsLower(s, t, g, s.sessions[g].file);
  }

  lemma CleanKeeps(s: State, now: int, packedNow: int, ks: seq<Path>, cs: seq<Path>, keep: int)
    requires Inv(s) && s.toRelease == [] && Visits(ks, s.plain) && Visits(cs, s.packed)
    ensures Inv(ApplyClean(s, now, packedNow, ks, cs, keep))
  {
    hide Ownership, Readers;
    PlacesClean(s, now, packedNow, ks, cs, keep);
    CleanMoves(s, now, packedNow, ks, cs, keep, true);
    ElsewhereSame(s, ApplyClean(s, now, packedNow, ks, cs, keep));
    hide Places, Swept, Fresh, Visits, Claims, Get;
  }

  /** The cleaner's lists are no concern of the owners and readers. */
  lemma ElsewhereSame(s: State, t: State)
    requires Ownership(s) && Readers(s)
    requires t == s.(plain := t.plain, packed := t.packed, pending := t.pending, toRelease := t.toRelease)
    ensures Ownership(t) && Readers(t)
  {
    forall r ensures Accounted(t, r) {
      assert Accounted(s, r);
      assert forall f :: t.Pool(f) == s.Pool(f);
    }
    assert forall f :: t.Pool(f) == s.Pool(f);
  }

  lemma ReleaseNextKeeps(s: State)
    requires Inv(s) && s.toRelease != []
    ensures Inv(Apply(s, ReleaseNext))
  {
    var f := s.toRelease[0];
    assert f in s.published && f in s.files;
    hide Places, Ownership, Counts, Readers, Moved;
    var u := Release(s, f);
    PlacesReleaseNext(s);
    ReadersRelease(s, f);
    OwnershipPublished(s, u, f);
    ElsewhereSame(u, Apply(s, ReleaseNext));
    CountsSameLists(s, Apply(s, ReleaseNext));
  }

  lemma CountsSameLists(s: State, t: State)
    requires Counts(s) && t.sessions == s.sessions && t.counts == s.counts && t.panicked == s.panicked
    requires t.plain == s.plain && t.packed == s.packed && t.pending == s.pending
    ensures Counts(t)
  {
    hide Claims;
  }

  // ---------- whole runs ----------

  /** The run of `steps` from `s` ends in `t`. */
  ghost predicate Reaches(s: State, steps: seq<Step>, t: State)
    decreases |steps|
  {
    if steps == [] then s == t else Enabled(s, steps[0]) && Reaches(Apply(s, steps[0]), steps[1..], t)
  }

  lemma StepKeeps(s: State, t: Step)
    requires Inv(s) && Enabled(s, t)
    ensures Inv(Apply(s, t))
  {
    hide Inv;
    match t
    case Lookup(g, compressed, path) => LookupKeeps(s, g, compressed, path);
    case OpenFails(g) => GoKeeps(s, g, Done);
    case HeaderFails(g, id) => LeakKeeps(s, g, id);
    case OpenFile(g, id, content, dirIndex, now) => OpenFileKeeps(s, g, id, content, dirIndex, now);
    case Publish(g) => PublishKeeps(s, g);
    case ReleaseOwn(g) => ReleaseOwnKeeps(s, g);
    case NotModified(g) => GoKeeps(s, g, Dropping(s.sessions[g].file));
    case NewReader(g) => NewReaderKeeps(s, g);
    case OpenReader(g, id) => OpenReaderKeeps(s, g, id);
    case OpenReaderFails(g) => GoKeeps(s, g, Dropping(s.sessions[g].file));
    case Close(g, seekOk) => CloseKeeps(s, g, seekOk);
    case Decrement(g) => DecrementKeeps(s, g);
    case Clean(now, packedNow, ks, cs, keep) => CleanKeeps(s, now, packedNow, ks, cs, keep);
    case ReleaseNext => ReleaseNextKeeps(s);
  }

  lemma {:induction false} RunKeeps(s: State, steps: seq<Step>, t: State)
    requires Inv(s) && Reaches(s, steps, t)
    ensures Inv(t)
    decreases |steps|
  {
    if steps != [] {
      StepKeeps(s, steps[0]);
      RunKeeps(Apply(s, steps[0]), steps[1..], t);
    }
  }

  lemma StartKeeps()
    ensures Inv(START)
  {
    forall c ensures Claims(START.sessions, c) == 0 { assert Claimants(START.sessions, c) == {}; }
  }

  lemma RunSafe(steps: seq<Step>, s: State)
    requires Reaches(START, steps, s)
    ensures Inv(s)
  {
    StartKeeps();
    hide Inv;
    RunKeeps(START, steps, s);
  }

  /**
   * In every interleaving the count of a file is the number of sessions holding it, no decrement goes
   * below zero, and a held file is not released and not about to be.
   */
  lemma CountsAreHolders(steps: seq<Step>, s: State)
    requires Reaches(START, steps, s)
    ensures !s.panicked
    ensures forall f :: s.Count(f) == |Claimants(s.sessions, OnFile(f))|
    ensures forall g, f :: g in s.sessions && s.sessions[g].Has(OnFile(f)) ==>
              s.Count(f) > 0 && s.Releases(f) == 0 && f !in s.toRelease
  {
    RunSafe(steps, s);
    hide Reaches;
    forall g, f | g in s.sessions && s.sessions[g].Has(OnFile(f))
      ensures s.Count(f) > 0 && s.Releases(f) == 0 && f !in s.toRelease
    {
      hide Readers, Ownership;
      Claimed(s.sessions, g, OnFile(f));
      HeldFile(s, g, f);
    }
  }

  /**
   * Every opened file is in exactly one place: owned by the session that opened it, in one slot of one
   * cache, once in the pending list, once among the files to release, released, once, or leaked.
   */
  lemma OnePlaceEach(steps: seq<Step>, s: State, f: FileId)
    requires Reaches(START, steps, s) && s.Known(f)
    ensures Claims(s.sessions, OnNew(f)) + |set k | k in s.plain && s.plain[k] == f| + |set k | k in s.packed && s.packed[k] == f|
            + multiset(s.pending)[f] + multiset(s.toRelease)[f] + s.Releases(f) + One(f in s.leaked) == 1
  {
    RunSafe(steps, s);
    hide Reaches;
    assert Places(s) && Ownership(s);
    hide Counts, Readers, Claims;
    SlotsOf(s.plain, f);
    SlotsOf(s.packed, f);
    TimesIn(s.pending, f);
    TimesIn(s.toRelease, f);
  }

  lemma SlotsOf(m: map<Path, FileId>, f: FileId)
    requires Injective(m)
    ensures |set k | k in m && m[k] == f| == One(f in m.Values)
  {
    var slots := set k | k in m && m[k] == f;
    if f in m.Values {
      var k :| k in m && m[k] == f;
      assert slots == {k};
    } else {
      assert slots == {};
    }
  }

  lemma {:induction false} TimesIn(s: seq<FileId>, f: FileId)
    requires Distinct(s)
    ensures multiset(s)[f] == One(f in s)
  {
    if s != [] {
      assert s == [s[0]] + s[1..];
      assert Distinct(s[1..]);
      TimesIn(s[1..], f);
      if s[0] == f { assert f !in s[1..]; }
    }
  }

  /** A session that reads has an open reader of its own file to itself. */
  lemma ReaderInUse(steps: seq<Step>, s: State, g: Session)
    requires Reaches(START, steps, s) && g in s.sessions && s.sessions[g].Large?
    ensures var p := s.sessions[g];
      && p.reader in s.readers && s.readers[p.reader] == p.file && s.Releases(p.file) == 0 && s.Closes(p.reader) == 0
      && (forall f :: p.reader !in s.Pool(f))
      && (forall h :: h in s.sessions && s.sessions[h].Has(OnReader(p.reader)) ==> h == g)
  {
    var p := s.sessions[g];
    RunSafe(steps, s);
    hide Reaches;
    HeldFile(s, g, p.file);
    assert Accounted(s, p.reader);
    hide Places, Counts, Ownership, Readers;
    Claimed(s.sessions, g, OnReader(p.reader));
    assert Claims(s.sessions, OnReader(p.reader)) == 1;
    forall h | h in s.sessions && s.sessions[h].Has(OnReader(p.reader)) ensures h == g {
      OneClaimant(s.sessions, g, h, OnReader(p.reader));
    }
  }

  lemma OneClaimant(sessions: map<Session, Phase>, g: Session, h: Session, c: Claim)
    requires g in sessions && h in sessions && sessions[g].Has(c) && sessions[h].Has(c) && Claims(sessions, c) == 1
    ensures h == g
  {
    var all := Claimants(sessions, c);
    assert {g, h} <= all;
    assert |all - {g}| == 0;
  }

  /** No reader is closed twice, and once its file is released it is closed, whoever gave it back. */
  lemma ReadersClosed(steps: seq<Step>, s: State, r: ReaderId)
    requires Reaches(START, steps, s)
    ensures s.Closes(r) <= 1
    ensures r in s.readers && s.Releases(s.readers[r]) > 0 ==> s.Closes(r) == 1
  {
    RunSafe(steps, s);
    hide Reaches;
    ClosedByInv(s, r);
  }

  lemma SomeClaimant(sessions: map<Session, Phase>, c: Claim) returns (g: Session)
    requires Claims(sessions, c) > 0
    ensures g in sessions && sessions[g].Has(c)
  {
    assert Claimants(sessions, c) != {};
    g :| g in Claimants(sessions, c);
  }

  lemma ClosedByInv(s: State, r: ReaderId)
    requires Inv(s)
    ensures s.Closes(r) <= 1
    ensures r in s.readers && s.Releases(s.readers[r]) > 0 ==> s.Closes(r) == 1
  {
    assert Accounted(s, r);
    if r in s.readers {
      var f := s.readers[r];
      ReleasedOnce(s, f);
      hide Places, Counts, Ownership, Readers;
      if Claims(s.sessions, OnReader(r)) > 0 {
        var g := SomeClaimant(s.sessions, OnReader(r));
        assert s.sessions[g].Has(OnFile(f));
        HeldFile(s, g, f);
      }
    }
  }

  lemma ReleasedOnce(s: State, f: FileId)
    requires Places(s) && Ownership(s)
    ensures s.Releases(f) <= 1
  {
    hide Claims;
  }

  /** Once released, a file stays released, once, and no session ever holds it again. */
  lemma ReleasedForGood(before: seq<Step>, s: State, later: seq<Step>, t: State, f: FileId)
    requires Reaches(START, before, s) && s.Releases(f) > 0 && Reaches(s, later, t)
    ensures t.Releases(f) == 1
    ensures forall g :: g in t.sessions ==> !t.sessions[g].Has(OnFile(f)) && !t.sessions[g].Has(OnNew(f))
  {
    RunSafe(before, s);
    RunKeeps(s, later, t);
    ReleasesGrow(s, later, t, f);
    ReleasedOnce(t, f);
    forall g | g in t.sessions ensures !t.sessions[g].Has(OnFile(f)) && !t.sessions[g].Has(OnNew(f)) {
      if t.sessions[g].Has(OnFile(f)) { HeldFile(t, g, f); }
      if t.sessions[g].Has(OnNew(f)) { OwnFile(t, g); }
    }
  }

  lemma {:induction false} ReleasesGrow(s: State, steps: seq<Step>, t: State, f: FileId)
    requires Reaches(s, steps, t)
    ensures s.Releases(f) <= t.Releases(f)
    decreases |steps|
  {
    if steps != [] {
      StepReleases(s, steps[0], f);
      ReleasesGrow(Apply(s, steps[0]), steps[1..], t, f);
    }
  }

  lemma StepReleases(s: State, t: Step, f: FileId)
    requires Enabled(s, t)
    ensures s.Releases(f) <= Apply(s, t).Releases(f)
  {
    hide Swept, Fresh, Visits, Add, Leak, ApplyLookup, ApplyOpenFile, ApplyPublish, ApplyNewReader, ApplyOpenReader, ApplyClose;
  }

  lemma {:induction false} ReachesThen(s: State, steps: seq<Step>, t: State, step: Step)
    requires Reaches(s, steps, t) && Enabled(t, step)
    ensures Reaches(s, steps + [step], Apply(t, step))
    decreases |steps|
  {
    if steps == [] {
      assert steps + [step] == [step] && [step][1..] == [];
    } else {
      assert (steps + [step])[1..] == steps[1..] + [step];
      hide Apply, Enabled;
      ReachesThen(Apply(s, steps[0]), steps[1..], t, step);
    }
  }

  lemma FirstRequest(path: Path, content: Content) returns (steps: seq<Step>, s: State)
    ensures Reaches(START, steps, s)
    ensures s == START.(plain := map[path := 1], sessions := map[0 := Holding(1)], published := {1},
                        files := map[1 := File(content, false, 0)], counts := map[1 := 1])
  {
    assert Reaches(START, [], START);
    hide Reaches;
    var lookup, open := Lookup(0, false, path), OpenFile(0, 1, content, false, 0);
    var s1 := START.(sessions := map[0 := Missed(false, path)]);
    ReachesThen(START, [], START, lookup);
    assert Apply(START, lookup) == s1;
    var s2 := START.(sessions := map[0 := Opened(false, path, 1)], files := map[1 := File(content, false, 0)]);
    ReachesThen(START, [] + [lookup], s1, open);
    assert Apply(s1, open) == s2;
    ReachesThen(START, [] + [lookup] + [open], s2, Publish(0));
    steps, s := [] + [lookup] + [open] + [Publish(0)], Apply(s2, Publish(0));
  }

  /** A file can go stale while it is held: the pass that finds it so makes it pending. */
  lemma HeldGoesPending(path: Path, content: Content) returns (steps: seq<Step>, s: State)
    ensures Reaches(START, steps, s) && s.pending == [1] && s.Count(1) == 1 && s.sessions == map[0 := Holding(1)]
  {
    var before, t := FirstRequest(path, content);
    hide Reaches;
    var pass := Clean(10, 10, [path], [], 5);
    ReachesThen(START, before, t, pass);
    steps, s := before + [pass], Apply(t, pass);
    assert [path][1..] == [] && Expired(t.files, t.plain, [path], 10, 5) == [1];
    assert [1][1..] == [] && Select(t.counts, [1], true) == [1];
  }

  // ---------- nothing leaks ----------

  /** Releases everything the cleaner has listed. */
  ghost function Drain(s: State): State
    decreases |s.toRelease|
  {
    if s.toRelease == [] then s else Drain(Apply(s, ReleaseNext))
  }

  lemma {:induction false} DrainRuns(s: State) returns (steps: seq<Step>)
    ensures Reaches(s, steps, Drain(s)) && Drain(s) == s.(releases := Drain(s).releases, closes := Drain(s).closes, toRelease := [])
    decreases |s.toRelease|
  {
    if s.toRelease == [] {
      steps := [];
    } else {
      var rest := DrainRuns(Apply(s, ReleaseNext));
      steps := [ReleaseNext] + rest;
      assert steps[1..] == rest;
    }
  }

  /** The files that were opened and whose header could not be read, in the order of the run. */
  function Misread(steps: seq<Step>): seq<FileId> {
    if steps == [] then [] else (if steps[0].HeaderFails? then [steps[0].id] else []) + Misread(steps[1..])
  }

  lemma {:induction false} MisreadSome(steps: seq<Step>)
    ensures Misread(steps) == [] <==> forall t :: t in steps ==> !t.HeaderFails?
  {
    if steps != [] {
      MisreadSome(steps[1..]);
      assert steps == [steps[0]] + steps[1..];
    }
  }

  lemma StepLeaks(s: State, t: Step)
    requires Enabled(s, t)
    ensures Apply(s, t).leaked == s.leaked + if t.HeaderFails? then {t.id} else {}
  {
    hide Swept, Fresh, Visits, Add, ApplyLookup, ApplyOpenFile, ApplyPublish, ApplyNewReader, ApplyOpenReader, ApplyClose;
  }

  ghost function Ids(s: seq<FileId>): set<FileId> { set f | f in s }

  /** Every header that cannot be read costs one descriptor, for good. */
  lemma {:induction false} RunLeaks(s: State, steps: seq<Step>, t: State)
    requires Reaches(s, steps, t)
    ensures t.leaked == s.leaked + Ids(Misread(steps))
    ensures |t.leaked| == |s.leaked| + |Misread(steps)|
    decreases |steps|
  {
    if steps != [] {
      var u, rest := Apply(s, steps[0]), Misread(steps[1..]);
      StepLeaks(s, steps[0]);
      assert steps[0].HeaderFails? ==> steps[0].id !in s.leaked;
      hide Apply, Enabled;
      RunLeaks(u, steps[1..], t);
      if steps[0].HeaderFails? {
        assert Misread(steps) == [steps[0].id] + rest;
        assert Ids([steps[0].id] + rest) == {steps[0].id} + Ids(rest);
      } else {
        assert [] + rest == rest;
      }
      hide Misread, Ids;
    }
  }

  /** A leaked file stays open: no later step closes it. */
  lemma LeakedForGood(before: seq<Step>, s: State, later: seq<Step>, t: State, f: FileId)
    requires Reaches(START, before, s) && f in s.leaked && Reaches(s, later, t)
    ensures f in t.leaked && t.Releases(f) == 0
  {
    RunSafe(before, s);
    hide Inv;
    RunKeeps(s, later, t);
    RunLeaks(s, later, t);
    LeakedOpen(t, f);
  }

  lemma LeakedOpen(s: State, f: FileId)
    requires Inv(s) && f in s.leaked
    ensures f !in s.files && s.Releases(f) == 0
  {
    hide Places, Counts, Readers, Claims;
  }

  /**
   * When every session is over, one pass that finds every cached file stale, and the releases it
   * leads to, close every reader and every file exactly once, except the files whose header could not
   * be read: each of those stays open. So nothing leaks if and only if every header could be read.
   */
  lemma NothingLeaks(before: seq<Step>, s: State, pass: Step) returns (after: seq<Step>)
    requires Reaches(START, before, s) && pass.Clean? && Enabled(s, pass)
    requires forall g :: g in s.sessions ==> s.sessions[g].Done?
    requires forall f :: f in s.plain.Values ==> Stale(s.files, f, pass.plainNow, pass.keep)
    requires forall f :: f in s.packed.Values ==> Stale(s.files, f, pass.packedNow, pass.keep)
    ensures Reaches(s, [pass] + after, Drain(Apply(s, pass)))
    ensures var t := Drain(Apply(s, pass));
      && t.files == s.files && t.readers == s.readers && t.leaked == s.leaked
      && (forall f :: t.Known(f) ==> t.Releases(f) == if f in Misread(before) then 0 else 1)
      && (forall r :: r in t.readers ==> t.Closes(r) == 1)
      && ((forall f :: t.Known(f) ==> t.Releases(f) == 1) <==> (forall step :: step in before ==> !step.HeaderFails?))
  {
    var u := Apply(s, pass);
    after := DrainRuns(u);
    assert ([pass] + after)[1..] == after;
    var t := Drain(u);
    RunSafe(before, s);
    RunLeaks(START, before, s);
    hide Inv, Reaches, Apply, Enabled, Stale, State.Known, State.Releases, State.Closes, Misread;
    PassCloses(s, pass, after);
    LeftOpen(before, t);
  }

  lemma LeftOpen(before: seq<Step>, t: State)
    requires Inv(t) && t.leaked == Ids(Misread(before)) && forall f :: f in t.files ==> t.Releases(f) == 1
    ensures forall f :: t.Known(f) ==> t.Releases(f) == if f in Misread(before) then 0 else 1
    ensures (forall f :: t.Known(f) ==> t.Releases(f) == 1) <==> (forall step :: step in before ==> !step.HeaderFails?)
  {
    MisreadSome(before);
    hide Inv;
    forall f | f in t.leaked ensures t.Releases(f) == 0 && f !in t.files { LeakedOpen(t, f); }
    if Misread(before) != [] { assert Misread(before)[0] in t.leaked; }
  }

  lemma PassCloses(s: State, pass: Step, after: seq<Step>)
    requires Inv(s) && pass.Clean? && Enabled(s, pass) && Reaches(Apply(s, pass), after, Drain(Apply(s, pass)))
    requires forall g :: g in s.sessions ==> s.sessions[g].Done?
    requires forall f :: f in s.plain.Values ==> Stale(s.files, f, pass.plainNow, pass.keep)
    requires forall f :: f in s.packed.Values ==> Stale(s.files, f, pass.packedNow, pass.keep)
    ensures var t := Drain(Apply(s, pass));
      && t.files == s.files && t.readers == s.readers && t.leaked == s.leaked && Inv(t)
      && (forall f :: f in t.files ==> t.Releases(f) == 1)
      && (forall r :: r in t.readers ==> t.Closes(r) == 1)
  {
    var u := Apply(s, pass);
    var t := Drain(u);
    StepKeeps(s, pass);
    RunKeeps(u, after, t);
    var _ := DrainRuns(u);
    CleanEmpties(s, pass.plainNow, pass.packedNow, pass.plainKeys, pass.packedKeys, pass.keep);
    forall f | f in t.files ensures t.Releases(f) == 1 { IdleReleased(t, f); }
    forall r | r in t.readers ensures t.Closes(r) == 1 { assert Accounted(t, r); ClosedByInv(t, r); }
  }

  /** Any number of requests for a file whose header cannot be read leave that many descriptors open. */
  lemma {:induction false} HeadersLeak(n: nat, path: Path) returns (steps: seq<Step>, s: State)
    ensures Reaches(START, steps, s) && |s.leaked| == n && s == START.(sessions := s.sessions, leaked := s.leaked)
    ensures forall g :: g in s.sessions ==> g < n && s.sessions[g].Done?
    ensures forall f :: f in s.leaked ==> 0 <= f < n && s.Releases(f) == 0
  {
    if n == 0 {
      steps, s := [], START;
    } else {
      var before, t := HeadersLeak(n - 1, path);
      var lookup, open := Lookup(n - 1, false, path), HeaderFails(n - 1, n - 1);
      var u := Apply(t, lookup);
      ReachesThen(START, before, t, lookup);
      ReachesThen(START, before + [lookup], u, open);
      steps, s := before + [lookup] + [open], Apply(u, open);
    }
  }

  // ---------- one file at a time ----------

  /** Of a cache the entries opened at most the keeping time ago are left, as they were. */
  ghost predicate LeavesYoung(files: map<FileId, File>, cache: map<Path, FileId>, rest: map<Path, FileId>, now: int, keep: int) {
    && (forall k :: k in rest <==> k in cache && cache[k] in files && now - files[cache[k]].since <= keep)
    && (forall k :: k in rest ==> k in cache && rest[k] == cache[k])
  }

  lemma YoungStays(before: seq<Step>, s: State, pass: Step)
    requires Reaches(START, before, s) && pass.Clean? && Enabled(s, pass)
    ensures LeavesYoung(s.files, s.plain, Apply(s, pass).plain, pass.plainNow, pass.keep)
    ensures LeavesYoung(s.files, s.packed, Apply(s, pass).packed, pass.packedNow, pass.keep)
  {
    RunSafe(before, s);
    CachedOpen(s);
    FreshIsYoung(s.files, s.plain, pass.plainNow, pass.keep);
    FreshIsYoung(s.files, s.packed, pass.packedNow, pass.keep);
    hide Reaches, Inv, Swept, Visits, Fresh, LeavesYoung;
  }

  lemma FreshIsYoung(files: map<FileId, File>, cache: map<Path, FileId>, now: int, keep: int)
    requires forall k :: k in cache ==> cache[k] in files
    ensures LeavesYoung(files, cache, Fresh(files, cache, now, keep), now, keep)
  {
  }

  lemma CachedOpen(s: State)
    requires Inv(s)
    ensures forall k :: k in s.plain ==> s.plain[k] in s.files
    ensures forall k :: k in s.packed ==> s.packed[k] in s.files
  {
    hide Ownership, Counts, Readers;
    forall k | k in s.plain ensures s.plain[k] in s.files { assert s.Cached(s.plain[k]); }
    forall k | k in s.packed ensures s.packed[k] in s.files { assert s.Cached(s.packed[k]); }
  }

  /** The pass finds the file unheld, and pending or stale. */
  ghost predicate Due(s: State, pass: Step, f: FileId)
    requires pass.Clean?
  {
    && (forall g :: g in s.sessions ==> !s.sessions[g].Has(OnFile(f)))
    && (|| f in s.pending
        || (f in s.plain.Values && Stale(s.files, f, pass.plainNow, pass.keep))
        || (f in s.packed.Values && Stale(s.files, f, pass.packedNow, pass.keep)))
  }

  /**
   * A file that a pass finds unheld, and pending or stale, is released with all its readers by the time
   * the cleaner has worked off its list, whatever the other sessions do in the meantime.
   */
  lemma DueReleased(before: seq<Step>, s: State, pass: Step, later: seq<Step>, t: State, f: FileId)
    requires Reaches(START, before, s) && pass.Clean? && Enabled(s, pass) && Due(s, pass, f)
    requires Reaches(Apply(s, pass), later, t) && t.toRelease == []
    ensures t.Releases(f) == 1
    ensures forall r :: r in t.readers && t.readers[r] == f ==> t.Closes(r) == 1
  {
    var u := Apply(s, pass);
    RunSafe(before, s);
    DueListed(s, pass, f);
    hide Due, Apply, Inv, Enabled;
    StepKeeps(s, pass);
    RunKeeps(u, later, t);
    ListedReleased(u, later, t, f);
    assert t.Releases(f) > 0;
    ReleasedOnceInv(t, f);
    forall r | r in t.readers && t.readers[r] == f ensures t.Closes(r) == 1 { ClosedByInv(t, r); }
  }

  lemma ReleasedOnceInv(s: State, f: FileId)
    requires Inv(s)
    ensures s.Releases(f) <= 1
  {
    hide Places, Ownership, Counts, Readers;
    ReleasedOnce(s, f);
  }

  lemma DueListed(s: State, pass: Step, f: FileId)
    requires Inv(s) && pass.Clean? && Enabled(s, pass) && Due(s, pass, f)
    ensures f in Apply(s, pass).toRelease
  {
    assert s.Count(f) == 0 by {
      if Claims(s.sessions, OnFile(f)) > 0 { var g := SomeClaimant(s.sessions, OnFile(f)); }
    }
    CleanMoves(s, pass.plainNow, pass.packedNow, pass.plainKeys, pass.packedKeys, pass.keep, false);
    DueLeaves(s, pass, f);
    hide Counts, Ownership, Readers, Claims, Swept, Fresh, Visits, Places;
  }

  /** A due file is in no cache after the pass. */
  lemma DueLeaves(s: State, pass: Step, f: FileId)
    requires Places(s) && pass.Clean? && Enabled(s, pass) && Due(s, pass, f)
    ensures !Apply(s, pass).Cached(f)
  {
    hide Swept, Visits;
  }

  lemma {:induction false} ListedReleased(s: State, steps: seq<Step>, t: State, f: FileId)
    requires Reaches(s, steps, t) && (f in s.toRelease || s.Releases(f) > 0)
    ensures f in t.toRelease || t.Releases(f) > 0
    decreases |steps|
  {
    if steps != [] {
      StepReleases(s, steps[0], f);
      if f in s.toRelease { StepLists(s, steps[0], f); }
      var u := Apply(s, steps[0]);
      hide Apply;
      ListedReleased(u, steps[1..], t, f);
    }
  }

  lemma StepLists(s: State, t: Step, f: FileId)
    requires Enabled(s, t) && f in s.toRelease
    ensures f in Apply(s, t).toRelease || Apply(s, t).Releases(f) > 0
  {
    hide Swept, Fresh, Visits, Add, Leak, ApplyLookup, ApplyOpenFile, ApplyPublish, ApplyNewReader, ApplyOpenReader, ApplyClose;
    if t.ReleaseNext? { assert s.toRelease == [s.toRelease[0]] + s.toRelease[1..]; }
  }

  /** With no session left and every cached file stale, only files to release remain. */
  lemma CleanEmpties(s: State, now: int, packedNow: int, ks: seq<Path>, cs: seq<Path>, keep: int)
    requires Inv(s) && Visits(ks, s.plain) && Visits(cs, s.packed)
    requires forall g :: g in s.sessions ==> s.sessions[g].Done?
    requires forall f :: f in s.plain.Values ==> Stale(s.files, f, now, keep)
    requires forall f :: f in s.packed.Values ==> Stale(s.files, f, packedNow, keep)
    ensures var t := ApplyClean(s, now, packedNow, ks, cs, keep); t.plain == map[] && t.packed == map[] && t.pending == []
  {
    forall f ensures s.Count(f) == 0 { NoClaims(s.sessions, OnFile(f)); }
    CleanMoves(s, now, packedNow, ks, cs, keep, true);
    hide Counts, Places, Ownership, Readers, Claims;
    Empty(Swept(s, now, packedNow, ks, cs, keep, true));
    hide Inv, Swept, Visits, State.Cached, State.Count;
  }

  lemma Empty(s: seq<FileId>)
    ensures s == [] || exists f :: f in s
  {
    if s != [] {
      var f := s[0];
      assert f in s;
    }
  }

  lemma IdleReleased(s: State, f: FileId)
    requires Inv(s) && f in s.files && s.plain == map[] && s.packed == map[] && s.pending == [] && s.toRelease == []
    requires forall g :: g in s.sessions ==> s.sessions[g].Done?
    ensures s.Releases(f) == 1
  {
    NoClaims(s.sessions, OnNew(f));
  }

  lemma NoClaims(sessions: map<Session, Phase>, c: Claim)
    requires forall g :: g in sessions ==> sessions[g].Done?
    ensures Claims(sessions, c) == 0
  {
    if g :| g in Claimants(sessions, c) {
      assert false;
    }
    assert Claimants(sessions, c) == {};
  }
}
