/**
 * The critical sections of the file handler as code: each method does what the handler does under one
 * lock, and takes the protocol by one step, or by a cleaner's pass and its releases.
 */
module FileHandler {

  import opened FileCache

  lemma {:induction false} SelectAppend(counts: map<FileId, int>, s: seq<FileId>, f: FileId, busy: bool)
    ensures Select(counts, s + [f], busy) == Select(counts, s, busy) + if (Get(counts, f) > 0) == busy then [f] else []
  {
    if s == [] {
      assert s + [f] == [f];
    } else {
      assert (s + [f])[1..] == s[1..] + [f];
      SelectAppend(counts, s[1..], f, busy);
    }
  }

  lemma {:induction false} ExpiredAppend(files: map<FileId, File>, cache: map<Path, FileId>, keys: seq<Path>, k: Path, now: int, keep: int)
    ensures Expired(files, cache, keys + [k], now, keep) ==
            Expired(files, cache, keys, now, keep) + if k in cache && Stale(files, cache[k], now, keep) then [cache[k]] else []
  {
    if keys == [] {
      assert keys + [k] == [k];
    } else {
      assert (keys + [k])[1..] == keys[1..] + [k];
      ExpiredAppend(files, cache, keys[1..], k, now, keep);
    }
  }

  /** The stale files that are counted, or those that are not. */
  function Listed(files: map<FileId, File>, counts: map<FileId, int>, cache: map<Path, FileId>, keys: seq<Path>, now: int, keep: int, busy: bool): seq<FileId> {
    Select(counts, Expired(files, cache, keys, now, keep), busy)
  }

  lemma ListAppend(files: map<FileId, File>, counts: map<FileId, int>, cache: map<Path, FileId>, keys: seq<Path>, k: Path, now: int, keep: int, busy: bool)
    requires k in cache
    ensures var ff := cache[k];
      Listed(files, counts, cache, keys + [k], now, keep, busy) == Listed(files, counts, cache, keys, now, keep, busy)
      + if Stale(files, ff, now, keep) && (Get(counts, ff) > 0) == busy then [ff] else []
  {
    ExpiredAppend(files, cache, keys, k, now, keep);
    var seen := Expired(files, cache, keys, now, keep);
    SelectAppend(counts, seen, cache[k], busy);
    if !Stale(files, cache[k], now, keep) {
      assert Expired(files, cache, keys + [k], now, keep) == seen;
    }
  }

  /** The entries not yet visited, and the fresh ones among the others. */
  function Remaining(files: map<FileId, File>, cache: map<Path, FileId>, todo: set<Path>, now: int, keep: int): map<Path, FileId> {
    map k | k in cache && (k in todo || !Stale(files, cache[k], now, keep)) :: cache[k]
  }

  lemma RemainingEnds(files: map<FileId, File>, cache: map<Path, FileId>, now: int, keep: int)
    ensures Remaining(files, cache, cache.Keys, now, keep) == cache
    ensures Remaining(files, cache, {}, now, keep) == Fresh(files, cache, now, keep)
  {
  }

  lemma RemainingStep(files: map<FileId, File>, cache: map<Path, FileId>, todo: set<Path>, now: int, keep: int, k: Path)
    requires k in cache && k in todo
    ensures Remaining(files, cache, todo - {k}, now, keep) ==
            if Stale(files, cache[k], now, keep) then Remaining(files, cache, todo, now, keep) - {k} else Remaining(files, cache, todo, now, keep)
  {
  }

  /** Sorts the files the last pass could not release by their count. */
  method SortPending(counts: map<FileId, int>, pendingFiles: seq<FileId>) returns (remaining: seq<FileId>, toRelease: seq<FileId>)
    ensures remaining == Select(counts, pendingFiles, true)
    ensures toRelease == Select(counts, pendingFiles, false)
  {
    remaining, toRelease := [], [];
    for i := 0 to |pendingFiles|
      invariant remaining == Select(counts, pendingFiles[..i], true)
      invariant toRelease == Select(counts, pendingFiles[..i], false)
    {
      var ff := pendingFiles[i];
      assert pendingFiles[..i + 1] == pendingFiles[..i] + [ff];
      SelectAppend(counts, pendingFiles[..i], ff, true);
      SelectAppend(counts, pendingFiles[..i], ff, false);
      if Get(counts, ff) > 0 {
        remaining := remaining + [ff];
      } else {
        toRelease := toRelease + [ff];
      }
    }
    assert pendingFiles[..|pendingFiles|] == pendingFiles;
  }

  /** Visits a cache in any order, deletes the stale entries and lists their files. */
  method CleanCacheNolock(files: map<FileId, File>, counts: map<FileId, int>, cache: map<Path, FileId>,
                          pendingFiles: seq<FileId>, filesToRelease: seq<FileId>, now: int, keep: int)
    returns (rest: map<Path, FileId>, pending: seq<FileId>, toRelease: seq<FileId>, ghost keys: seq<Path>)
    requires forall k :: k in cache ==> cache[k] in files
    ensures Visits(keys, cache)
    ensures rest == Fresh(files, cache, now, keep)
    ensures pending == pendingFiles + Listed(files, counts, cache, keys, now, keep, true)
    ensures toRelease == filesToRelease + Listed(files, counts, cache, keys, now, keep, false)
  {
    rest, pending, toRelease, keys := cache, pendingFiles, filesToRelease, [];
    var todo := cache.Keys;
    RemainingEnds(files, cache, now, keep);
    assert Listed(files, counts, cache, keys, now, keep, true) == [] == Listed(files, counts, cache, keys, now, keep, false);
    hide Listed, Remaining, Fresh;
    while todo != {}
      invariant todo <= cache.Keys && Distinct(keys)
      invariant forall k :: k in cache ==> (k in keys <==> k !in todo)
      invariant forall k :: k in keys ==> k in cache
      invariant rest == Remaining(files, cache, todo, now, keep)
      invariant pending == pendingFiles + Listed(files, counts, cache, keys, now, keep, true)
      invariant toRelease == filesToRelease + Listed(files, counts, cache, keys, now, keep, false)
      decreases |todo|
    {
      var k :| k in todo;
      var ff := cache[k];
      RemainingStep(files, cache, todo, now, keep, k);
      ListAppend(files, counts, cache, keys, k, now, keep, true);
      ListAppend(files, counts, cache, keys, k, now, keep, false);
      if now - files[ff].since > keep {
        if Get(counts, ff) > 0 {
          pending := pending + [ff];
        } else {
          toRelease := toRelease + [ff];
        }
        rest := rest - {k};
      }
      todo := todo - {k};
      keys := keys + [k];
    }
  }

  /** What a lookup changes. */
  lemma LookupParts(s: State, g: Session, compressed: bool, path: Path)
    ensures var t, cache := ApplyLookup(s, g, compressed, path), s.Cache(compressed);
      && t.files == s.files && t.pools == s.pools && t.plain == s.plain && t.packed == s.packed
      && (if path in cache then t.counts == Add(s.counts, cache[path], 1) && t.sessions == s.sessions[g := Holding(cache[path])]
          else t.counts == s.counts && t.sessions == s.sessions[g := Missed(compressed, path)])
  {
    hide Add;
    if path in s.Cache(compressed) {
      var f := s.Cache(compressed)[path];
      assert ApplyLookup(s, g, compressed, path) == Go(Raise(s, f), g, Holding(f));
    }
  }

  /** What publishing changes when the slot is taken, and when it is free. */
  lemma PublishLoses(s: State, g: Session, used: FileId)
    requires g in s.sessions && s.sessions[g].Opened?
    requires var p := s.sessions[g]; p.path in s.Cache(p.compressed) && used == s.Cache(p.compressed)[p.path]
    ensures var t := ApplyPublish(s, g);
      && t.files == s.files && t.pools == s.pools && t.counts == Add(s.counts, used, 1)
      && t.plain == s.plain && t.packed == s.packed && t.sessions == s.sessions[g := Lost(s.sessions[g].own, used)]
  {
    hide Add;
  }

  lemma PublishWins(s: State, g: Session)
    requires g in s.sessions && s.sessions[g].Opened? && s.sessions[g].path !in s.Cache(s.sessions[g].compressed)
    ensures var p, t := s.sessions[g], ApplyPublish(s, g);
      && t.files == s.files && t.pools == s.pools && t.counts == Add(s.counts, p.own, 1)
      && t.plain == (if p.compressed then s.plain else s.plain[p.path := p.own])
      && t.packed == (if p.compressed then s.packed[p.path := p.own] else s.packed)
      && t.sessions == s.sessions[g := Holding(p.own)]
  {
    hide Add;
    var p := s.sessions[g];
    var u := Go(Raise(s, p.own), g, Holding(p.own));
    assert ApplyPublish(s, g) == Put(u, p.compressed, p.path, p.own);
  }

  /** What asking for a reader changes. */
  lemma ReaderParts(s: State, g: Session, f: FileId)
    requires g in s.sessions && s.sessions[g] == Holding(f)
    ensures var t, pool := ApplyNewReader(s, g), s.Pool(f);
      && t.files == s.files && t.counts == s.counts && t.plain == s.plain && t.packed == s.packed
      && (if s.Big(f) && pool != []
          then t.pools == s.pools[f := pool[..|pool| - 1]] && t.sessions == s.sessions[g := Large(f, pool[|pool| - 1])]
          else t.pools == s.pools && t.sessions == s.sessions[g := if s.Big(f) then Opening(f) else Small(f)])
  {
    if s.Big(f) && s.Pool(f) != [] {
      hide State.Pool;
    } else {
      hide State.Pool;
    }
  }

  // ---------- open descriptors ----------

  /**
   * The descriptors that are open: files that were not released, directory indexes aside, files that
   * were leaked, and readers that were not closed.
   */
  ghost predicate Descriptors(files: set<FileId>, readers: set<ReaderId>, s: State) {
    && (forall f :: f in files <==> f in s.leaked || (f in s.files && !s.files[f].dirIndex && s.Releases(f) == 0))
    && (forall r :: r in readers <==> r in s.readers && s.Closes(r) == 0)
  }

  ghost predicate SameDescriptors(s: State, t: State) {
    t.files == s.files && t.releases == s.releases && t.leaked == s.leaked && t.readers == s.readers && t.closes == s.closes
  }

  lemma DescriptorsKeep(files: set<FileId>, readers: set<ReaderId>, s: State, t: State)
    requires Descriptors(files, readers, s) && SameDescriptors(s, t)
    ensures Descriptors(files, readers, t)
  {
  }

  lemma LookupSame(s: State, g: Session, compressed: bool, path: Path)
    ensures SameDescriptors(s, ApplyLookup(s, g, compressed, path))
  {
    hide Add;
    if path in s.Cache(compressed) { assert ApplyLookup(s, g, compressed, path).files == s.files; }
  }

  lemma PublishSame(s: State, g: Session)
    requires g in s.sessions && s.sessions[g].Opened?
    ensures SameDescriptors(s, ApplyPublish(s, g))
  {
    hide Add;
    var p := s.sessions[g];
    if p.path !in s.Cache(p.compressed) {
      var u := Go(Raise(s, p.own), g, Holding(p.own));
      assert ApplyPublish(s, g) == Put(u, p.compressed, p.path, p.own);
    }
  }

  lemma NewReaderSame(s: State, g: Session)
    requires g in s.sessions && s.sessions[g].Holding?
    ensures SameDescriptors(s, ApplyNewReader(s, g))
  {
    var f := s.sessions[g].file;
    if !s.Big(f) {
      assert ApplyNewReader(s, g) == Go(s, g, Small(f));
    } else if s.Pool(f) == [] {
      assert ApplyNewReader(s, g) == Go(s, g, Opening(f));
    } else {
      var pool := s.Pool(f);
      assert ApplyNewReader(s, g) == Go(s.(pools := s.pools[f := pool[..|pool| - 1]]), g, Large(f, pool[|pool| - 1]));
    }
    hide ApplyNewReader;
  }

  lemma CloseSame(s: State, g: Session)
    requires g in s.sessions && s.sessions[g].Large?
    ensures SameDescriptors(s, ApplyClose(s, g, true))
  {
  }

  /** A reader that is closed is no longer open. */
  lemma CloseOpens(files: set<FileId>, readers: set<ReaderId>, s: State, g: Session)
    requires Descriptors(files, readers, s) && g in s.sessions && s.sessions[g].Large?
    ensures Descriptors(files, readers - {s.sessions[g].reader}, ApplyClose(s, g, false))
  {
    var t := ApplyClose(s, g, false);
    assert t.files == s.files && t.releases == s.releases && t.readers == s.readers;
  }

  /** The readers that releasing a file closes. */
  ghost function Closing(s: State, f: FileId): set<ReaderId> {
    if s.Big(f) then set r | r in s.Pool(f) else {}
  }

  lemma ReleaseCloses(files: set<FileId>, readers: set<ReaderId>, s: State, f: FileId)
    requires Descriptors(files, readers, s) && f !in s.leaked
    ensures Descriptors(files - {f}, readers - Closing(s, f), Release(s, f))
  {
    var t := Release(s, f);
    forall r ensures r in s.readers && t.Closes(r) == 0 <==> r in readers && r !in Closing(s, f) {
      assert s.Big(f) ==> t.Closes(r) == s.Closes(r) + multiset(s.Pool(f))[r];
    }
  }

  /** What is released was opened and kept: a file on the cleaner's list, and one a slower session opened. */
  lemma ReleasedKept(s: State, f: FileId)
    requires Inv(s) && (f in s.toRelease || exists g :: g in s.sessions && s.sessions[g].Lost? && s.sessions[g].own == f)
    ensures f in s.files && f !in s.leaked
  {
    assert Places(s) && Ownership(s);
    hide Places, Ownership, Counts, Readers, Claims;
    if f in s.toRelease {
      assert f in s.published by { assert Places(s); }
    } else {
      var g :| g in s.sessions && s.sessions[g].Lost? && s.sessions[g].own == f;
      OwnFile(s, g);
    }
  }

  lemma OpenIsFile(files: set<FileId>, readers: set<ReaderId>, s: State, f: FileId)
    requires Descriptors(files, readers, s) && f !in s.leaked
    ensures f in files ==> f in s.files && !s.files[f].dirIndex
  {
  }

  lemma OpenFileOpens(files: set<FileId>, readers: set<ReaderId>, s: State, g: Session, id: FileId, content: Content, dirIndex: bool, now: int)
    requires Descriptors(files, readers, s) && Inv(s) && g in s.sessions && s.sessions[g].Missed? && !s.Known(id)
    ensures Descriptors(if dirIndex then files else files + {id}, readers, ApplyOpenFile(s, g, id, content, dirIndex, now))
  {
    assert s.Releases(id) == 0 by {
      hide Places, Counts, Readers, Claims;
      assert Ownership(s);
    }
    hide Inv;
  }

  /** The next file on the cleaner's list is closed with its pooled readers. */
  lemma ReleaseNextCloses(files: set<FileId>, readers: set<ReaderId>, s: State)
    requires Descriptors(files, readers, s) && Inv(s) && s.toRelease != []
    ensures var f, t := s.toRelease[0], Apply(s, ReleaseNext);
      && t.plain == s.plain && t.packed == s.packed && t.files == s.files && t.counts == s.counts && t.pools == s.pools && Inv(t)
      && (f in files ==> f in s.files && !s.files[f].dirIndex)
      && Descriptors(files - {f}, readers - Closing(s, f), t)
  {
    hide Inv, Descriptors;
    var f := s.toRelease[0];
    var t := Release(s, f);
    StepKeeps(s, ReleaseNext);
    ReleasedKept(s, f);
    ReleaseCloses(files, readers, s, f);
    OpenIsFile(files, readers, s, f);
    DescriptorsKeep(files - {f}, readers - Closing(s, f), t, t.(toRelease := s.toRelease[1..]));
  }

  lemma LeakOpens(files: set<FileId>, readers: set<ReaderId>, s: State, g: Session, id: FileId)
    requires Descriptors(files, readers, s)
    ensures Descriptors(files + {id}, readers, Leak(s, g, id))
  {
  }

  lemma OpenReaderOpens(files: set<FileId>, readers: set<ReaderId>, s: State, g: Session, id: ReaderId)
    requires Descriptors(files, readers, s) && Inv(s) && g in s.sessions && s.sessions[g].Opening? && id !in s.readers
    ensures Descriptors(files, readers + {id}, ApplyOpenReader(s, g, id))
  {
    assert s.Closes(id) == 0 by {
      hide Places, Counts, Ownership, Claims;
      assert Readers(s) && Accounted(s, id);
    }
    hide Inv;
  }

  /** How the calls that read the start of a file end: its gzip header, up to 512 bytes, and the seek back. */
  datatype Header = Header(gzip: bool, bytes: bool, rewound: bool) {
    predicate Readable(compressed: bool) { (compressed ==> gzip) && bytes && rewound }
  }

  method ReadFileHeader(header: Header, compressed: bool) returns (ok: bool)
    ensures ok == header.Readable(compressed)
  {
    if compressed && !header.gzip {
      return false;
    }
    if !header.rewound {
      return false;
    }
    ok := header.bytes;
  }

  class Handler {
    var cache: map<Path, FileId>
    var compressedCache: map<Path, FileId>
    var files: map<FileId, File>
    var readersCount: map<FileId, int>
    var bigFiles: map<FileId, seq<ReaderId>>
    var openFiles: set<FileId>
    var openReaders: set<ReaderId>
    ghost var protocol: State

    ghost predicate Valid()
      reads this
    {
      && cache == protocol.plain && compressedCache == protocol.packed && files == protocol.files
      && readersCount == protocol.counts && bigFiles == protocol.pools
      && Descriptors(openFiles, openReaders, protocol) && Inv(protocol)
    }

    constructor ()
      ensures Valid() && protocol == START
    {
      cache, compressedCache, files, readersCount, bigFiles := map[], map[], map[], map[], map[];
      openFiles, openReaders := {}, {};
      protocol := START;
      StartKeeps();
    }

    /** A hit is counted before the lock is given back. */
    method LookUp(g: Session, compressed: bool, path: Path) returns (ok: bool, ff: FileId)
      requires Valid() && g !in protocol.sessions
      modifies this
      ensures Valid() && protocol == ApplyLookup(old(protocol), g, compressed, path)
      ensures protocol.sessions == old(protocol.sessions)[g := if ok then Holding(ff) else Missed(compressed, path)]
      ensures var c := if compressed then old(compressedCache) else old(cache);
        ok == (path in c) && (ok ==> ff == c[path] && Get(readersCount, ff) == old(Get(readersCount, c[path])) + 1)
    {
      hide Inv, Descriptors, SameDescriptors;
      LookupSame(protocol, g, compressed, path);
      DescriptorsKeep(openFiles, openReaders, protocol, ApplyLookup(protocol, g, compressed, path));
      StepKeeps(protocol, Lookup(g, compressed, path));
      LookupParts(protocol, g, compressed, path);
      ghost var next := ApplyLookup(protocol, g, compressed, path);
      hide ApplyLookup, Add;
      var fileCache := if compressed then compressedCache else cache;
      ok, ff := path in fileCache, 0;
      if ok {
        ff := fileCache[path];
        readersCount := Add(readersCount, ff, 1);
      }
      protocol := next;
    }

    /** Publishes the opened file unless another session was faster; `used` is the file to serve. */
    method PublishFile(g: Session, compressed: bool, path: Path, own: FileId) returns (lost: bool, used: FileId)
      requires Valid() && g in protocol.sessions && protocol.sessions[g] == Opened(compressed, path, own)
      modifies this
      ensures Valid() && protocol == ApplyPublish(old(protocol), g)
      ensures protocol.sessions == old(protocol.sessions)[g := if lost then Lost(own, used) else Holding(own)]
      ensures var c := if compressed then old(compressedCache) else old(cache); lost == (path in c) && used == if lost then c[path] else own
      ensures compressedCache == (if compressed && !lost then old(compressedCache)[path := own] else old(compressedCache))
      ensures cache == if !compressed && !lost then old(cache)[path := own] else old(cache)
    {
      hide Inv, Descriptors, SameDescriptors;
      PublishSame(protocol, g);
      DescriptorsKeep(openFiles, openReaders, protocol, ApplyPublish(protocol, g));
      StepKeeps(protocol, Publish(g));
      ghost var next := ApplyPublish(protocol, g);
      var fileCache := if compressed then compressedCache else cache;
      lost := path in fileCache;
      if lost {
        used := fileCache[path];
        PublishLoses(protocol, g, used);
      } else {
        used := own;
        PublishWins(protocol, g);
        if compressed {
          compressedCache := compressedCache[path := own];
        } else {
          cache := cache[path := own];
        }
      }
      hide ApplyPublish, Add;
      readersCount := Add(readersCount, used, 1);
      protocol := next;
    }

    /** Small files are read in place; a big one takes the last pooled reader, if there is one. */
    method TakeReader(g: Session, ff: FileId) returns (pooled: bool, r: ReaderId)
      requires Valid() && g in protocol.sessions && protocol.sessions[g] == Holding(ff)
      modifies this
      ensures Valid() && protocol == ApplyNewReader(old(protocol), g)
      ensures protocol.sessions == old(protocol.sessions)[g := if !protocol.Big(ff) then Small(ff) else if pooled then Large(ff, r) else Opening(ff)]
      ensures pooled == (ff in files && files[ff].Big() && ff in old(bigFiles) && old(bigFiles)[ff] != [])
      ensures bigFiles == if pooled then old(bigFiles)[ff := old(bigFiles)[ff][..|old(bigFiles)[ff]| - 1]] else old(bigFiles)
      ensures pooled ==> r == old(bigFiles)[ff][|old(bigFiles)[ff]| - 1]
    {
      hide Inv, Descriptors, SameDescriptors;
      NewReaderSame(protocol, g);
      DescriptorsKeep(openFiles, openReaders, protocol, ApplyNewReader(protocol, g));
      StepKeeps(protocol, NewReader(g));
      ReaderParts(protocol, g, ff);
      hide ApplyNewReader;
      pooled, r := false, 0;
      if ff in files && files[ff].Big() {
        var pool := if ff in bigFiles then bigFiles[ff] else [];
        var n := |pool|;
        if n > 0 {
          pooled, r := true, pool[n - 1];
          bigFiles := bigFiles[ff := pool[..n - 1]];
        }
      }
      protocol := ApplyNewReader(protocol, g);
    }

    /** A reader that can be rewound goes back to the pool, another one is closed; the count drops only afterwards. */
    method GiveBack(g: Session, ff: FileId, r: ReaderId, seekOk: bool)
      requires Valid() && g in protocol.sessions && protocol.sessions[g] == Large(ff, r)
      modifies this
      ensures Valid() && protocol == ApplyClose(old(protocol), g, seekOk)
      ensures protocol.sessions[g] == Dropping(ff) && readersCount == old(readersCount)
      ensures seekOk ==> ff in bigFiles && bigFiles[ff] == old(if ff in bigFiles then bigFiles[ff] else []) + [r] && openReaders == old(openReaders)
      ensures !seekOk ==> bigFiles == old(bigFiles) && openReaders == old(openReaders) - {r}
    {
      hide Inv, Descriptors, SameDescriptors;
      StepKeeps(protocol, Close(g, seekOk));
      if seekOk {
        CloseSame(protocol, g);
        DescriptorsKeep(openFiles, openReaders, protocol, ApplyClose(protocol, g, true));
        bigFiles := bigFiles[ff := (if ff in bigFiles then bigFiles[ff] else []) + [r]];
      } else {
        CloseOpens(openFiles, openReaders, protocol, g);
        openReaders := openReaders - {r};
      }
      protocol := ApplyClose(protocol, g, seekOk);
    }

    /** The count never drops below zero, so there is no panic. */
    method DecReadersCount(g: Session, ff: FileId) returns (panics: bool)
      requires Valid() && g in protocol.sessions && protocol.sessions[g] == Dropping(ff)
      modifies this
      ensures Valid() && protocol == Go(Lower(old(protocol), ff), g, Done)
      ensures !panics && Get(readersCount, ff) == old(Get(readersCount, ff)) - 1
    {
      hide Inv, Descriptors;
      ghost var next := Go(Lower(protocol, ff), g, Done);
      StepKeeps(protocol, Decrement(g));
      assert Apply(protocol, Decrement(g)) == next;
      DescriptorsKeep(openFiles, openReaders, protocol, next);
      NoPanic(next);
      readersCount := Add(readersCount, ff, -1);
      panics := Get(readersCount, ff) < 0;
      protocol := next;
    }

    lemma NoPanic(s: State)
      requires Inv(s)
      ensures !s.panicked
    {
    }

    /** What the cleaner does under the lock: sort the pending files, then sweep both caches. */
    method Sweep(pendingFiles: seq<FileId>, now: int, packedNow: int, keep: int)
      returns (pending: seq<FileId>, toRelease: seq<FileId>, ghost ks: seq<Path>, ghost cs: seq<Path>)
      requires Valid() && pendingFiles == protocol.pending && protocol.toRelease == []
      modifies this
      ensures Valid() && pending == protocol.pending && toRelease == protocol.toRelease
      ensures Enabled(old(protocol), Clean(now, packedNow, ks, cs, keep))
      ensures protocol == Apply(old(protocol), Clean(now, packedNow, ks, cs, keep))
    {
      hide Inv, Visits, Fresh, Descriptors;
      pending, toRelease := SortPending(readersCount, pendingFiles);
      CachedOpen(protocol);
      cache, pending, toRelease, ks := CleanCacheNolock(files, readersCount, cache, pending, toRelease, now, keep);
      compressedCache, pending, toRelease, cs := CleanCacheNolock(files, readersCount, compressedCache, pending, toRelease, packedNow, keep);
      StepKeeps(protocol, Clean(now, packedNow, ks, cs, keep));
      DescriptorsKeep(openFiles, openReaders, protocol, ApplyClean(protocol, now, packedNow, ks, cs, keep));
      protocol := ApplyClean(protocol, now, packedNow, ks, cs, keep);
    }

    /** One pass of the cleaner, the releases after the lock included. */
    method CleanCache(pendingFiles: seq<FileId>, now: int, packedNow: int, keep: int)
      returns (pending: seq<FileId>, ghost ks: seq<Path>, ghost cs: seq<Path>)
      requires Valid() && pendingFiles == protocol.pending && protocol.toRelease == []
      modifies this
      ensures Valid() && pending == protocol.pending && protocol.toRelease == []
      ensures Enabled(old(protocol), Clean(now, packedNow, ks, cs, keep))
      ensures protocol == Drain(Apply(old(protocol), Clean(now, packedNow, ks, cs, keep)))
    {
      hide Inv, ApplyClean, Visits, Descriptors;
      var toRelease;
      pending, toRelease, ks, cs := Sweep(pendingFiles, now, packedNow, keep);
      ghost var end := Drain(protocol);
      for i := 0 to |toRelease|
        invariant Valid() && protocol.toRelease == toRelease[i..] && protocol.pending == pending && Drain(protocol) == end
      {
        ReleaseListed(toRelease[i]);
      }
    }

    /** The next file on the cleaner's list. */
    method ReleaseListed(ff: FileId)
      requires Enabled(protocol, ReleaseNext) && ff == protocol.toRelease[0] && Valid()
      modifies this
      ensures protocol == Apply(old(protocol), ReleaseNext) && Valid()
    {
      hide Inv, Descriptors, Apply, Closing;
      ReleaseNextCloses(openFiles, openReaders, protocol);
      CloseDescriptors(ff);
      protocol := Apply(protocol, ReleaseNext);
    }

    /** Closes the file and, for a big one, every pooled reader. */
    method CloseDescriptors(ff: FileId)
      requires files == protocol.files && bigFiles == protocol.pools && (ff in openFiles ==> ff in files && !files[ff].dirIndex)
      modifies this`openFiles, this`openReaders
      ensures openFiles == old(openFiles) - {ff}
      ensures openReaders == old(openReaders) - Closing(protocol, ff)
    {
      if ff in files && !files[ff].dirIndex {
        openFiles := openFiles - {ff};
        if files[ff].Big() {
          var pool := if ff in bigFiles then bigFiles[ff] else [];
          for i := 0 to |pool|
            invariant openReaders == old(openReaders) - set r | r in pool[..i]
            modifies this`openReaders
          {
            openReaders := openReaders - {pool[i]};
          }
        }
      }
    }

    /** Keeps a file that was opened, or a directory index, for a session that missed the cache. */
    method KeepFile(g: Session, id: FileId, content: Content, dirIndex: bool, now: int)
      requires Valid() && g in protocol.sessions && protocol.sessions[g].Missed? && !protocol.Known(id)
      modifies this
      ensures Valid() && protocol == ApplyOpenFile(old(protocol), g, id, content, dirIndex, now)
      ensures openFiles == if dirIndex then old(openFiles) else old(openFiles) + {id}
    {
      hide Inv, Descriptors;
      StepKeeps(protocol, OpenFile(g, id, content, dirIndex, now));
      OpenFileOpens(openFiles, openReaders, protocol, g, id, content, dirIndex, now);
      files := files[id := File(content, dirIndex, now)];
      if !dirIndex { openFiles := openFiles + {id}; }
      protocol := ApplyOpenFile(protocol, g, id, content, dirIndex, now);
    }

    /** Gives up on an opening that left no descriptor behind. */
    method GiveUp(g: Session)
      requires Valid() && g in protocol.sessions && protocol.sessions[g].Missed?
      modifies this
      ensures Valid() && protocol == Go(old(protocol), g, Done) && openFiles == old(openFiles)
    {
      hide Inv, Descriptors;
      StepKeeps(protocol, OpenFails(g));
      DescriptorsKeep(openFiles, openReaders, protocol, Go(protocol, g, Done));
      protocol := Go(protocol, g, Done);
    }

    /** Gives up on an opening whose descriptor is still there. */
    method Abandon(g: Session, id: FileId)
      requires Valid() && g in protocol.sessions && protocol.sessions[g].Missed? && !protocol.Known(id)
      modifies this
      ensures Valid() && protocol == Leak(old(protocol), g, id) && openFiles == old(openFiles) + {id}
    {
      hide Inv, Descriptors;
      StepKeeps(protocol, HeaderFails(g, id));
      LeakOpens(openFiles, openReaders, protocol, g, id);
      openFiles := openFiles + {id};
      protocol := Leak(protocol, g, id);
    }

    /**
     * A file that was just opened is kept unless its size does not fit an `int`, when it is closed, or
     * its type has to be found out and its header cannot be read, when it is not.
     */
    method NewFile(g: Session, id: FileId, content: Content, fits: bool, knownType: bool, header: Header, compressed: bool, now: int)
      returns (ok: bool)
      requires Valid() && g in protocol.sessions && protocol.sessions[g].Missed? && !protocol.Known(id)
      modifies this
      ensures Valid() && ok == (fits && (knownType || header.Readable(compressed)))
      ensures protocol ==
              if ok then ApplyOpenFile(old(protocol), g, id, content, false, now)
              else if fits then Leak(old(protocol), g, id) else Go(old(protocol), g, Done)
      ensures openFiles == if fits then old(openFiles) + {id} else old(openFiles)
    {
      hide Leak, ApplyOpenFile, Go, Inv, Descriptors;
      if !fits {
        GiveUp(g);
        return false;
      }
      if !knownType {
        ok := ReadFileHeader(header, compressed);
        if !ok {
          Abandon(g, id);
          return;
        }
      }
      KeepFile(g, id, content, false, now);
      ok := true;
    }

    /** Opens a second descriptor on a big file whose pool was empty. */
    method OpenBig(g: Session, id: ReaderId)
      requires Valid() && g in protocol.sessions && protocol.sessions[g].Opening? && id !in protocol.readers
      modifies this
      ensures Valid() && protocol == ApplyOpenReader(old(protocol), g, id) && openReaders == old(openReaders) + {id}
    {
      hide Inv, Descriptors;
      StepKeeps(protocol, OpenReader(g, id));
      OpenReaderOpens(openFiles, openReaders, protocol, g, id);
      openReaders := openReaders + {id};
      protocol := ApplyOpenReader(protocol, g, id);
    }

    /** The slower of two sessions closes its own file and holds the other. */
    method ReleaseLoser(g: Session, own: FileId, used: FileId)
      requires Valid() && g in protocol.sessions && protocol.sessions[g] == Lost(own, used)
      modifies this
      ensures Valid() && protocol == Apply(old(protocol), ReleaseOwn(g))
    {
      hide Inv, Descriptors;
      StepKeeps(protocol, ReleaseOwn(g));
      ReleasedKept(protocol, own);
      ReleaseCloses(openFiles, openReaders, protocol, own);
      OpenIsFile(openFiles, openReaders, protocol, own);
      CloseDescriptors(own);
      ghost var t := Release(protocol, own);
      DescriptorsKeep(openFiles, openReaders, t, Go(t, g, Holding(used)));
      protocol := Go(t, g, Holding(used));
    }
  }
}
