/**
 * Which file a session gets. A history is read off the steps of a run alone: what each session asked for,
 * and for which request, and as what, each file was opened.
 */
module FileOrigins {

  import opened FileCache

  datatype Request = Request(compressed: bool, path: Path)

  datatype Origin = Origin(request: Request, file: File)

  datatype History = History(asked: map<Session, Request>, origins: map<FileId, Origin>)

  const NO_HISTORY := History(map[], map[])

  function Record(h: History, t: Step): History {
    match t
    case Lookup(g, compressed, path) => h.(asked := h.asked[g := Request(compressed, path)])
    case OpenFile(g, id, content, dirIndex, now) =>
      if g in h.asked then h.(origins := h.origins[id := Origin(h.asked[g], File(content, dirIndex, now))]) else h
    case _ => h
  }

  function RecordAll(h: History, steps: seq<Step>): History
    decreases |steps|
  {
    if steps == [] then h else RecordAll(Record(h, steps[0]), steps[1..])
  }

  /** The file was opened for the request. */
  ghost predicate For(h: History, f: FileId, r: Request) { f in h.origins && h.origins[f].request == r }

  /** Whatever a session in this phase has to do with was opened for what it asked for. */
  ghost predicate PhaseRight(h: History, r: Request, p: Phase) {
    match p
    case Missed(compressed, path) => r == Request(compressed, path)
    case Opened(compressed, path, own) => r == Request(compressed, path) && For(h, own, r)
    case Lost(own, file) => For(h, own, r) && For(h, file, r)
    case Done => true
    case _ => For(h, p.file, r)
  }

  ghost predicate CacheRight(h: History, cache: map<Path, FileId>, compressed: bool) {
    forall k :: k in cache ==> For(h, cache[k], Request(compressed, k))
  }

  ghost predicate SessionsRight(h: History, sessions: map<Session, Phase>) {
    forall g :: g in sessions ==> g in h.asked && PhaseRight(h, h.asked[g], sessions[g])
  }

  /** The open files are those the history knows, unchanged. */
  ghost predicate FilesRight(h: History, files: map<FileId, File>) {
    files.Keys == h.origins.Keys && forall f :: f in files ==> files[f] == h.origins[f].file
  }

  ghost predicate Right(h: History, s: State) {
    FilesRight(h, s.files) && CacheRight(h, s.plain, false) && CacheRight(h, s.packed, true) && SessionsRight(h, s.sessions)
  }

  // ---------- every step keeps it ----------

  /** A session moves on; files and caches stay. */
  lemma MoveRight(h: History, s: State, t: State, g: Session, p: Phase)
    requires Right(h, s) && t.sessions == s.sessions[g := p] && t.files == s.files && t.plain == s.plain && t.packed == s.packed
    requires g in h.asked && PhaseRight(h, h.asked[g], p)
    ensures Right(h, t)
  {
    hide FilesRight, CacheRight, PhaseRight;
  }

  lemma SameRight(h: History, s: State, t: State)
    requires Right(h, s) && t.sessions == s.sessions && t.files == s.files && t.plain == s.plain && t.packed == s.packed
    ensures Right(h, t)
  {
  }

  /** What a new session asks for concerns nobody else. */
  lemma AskedRight(h: History, s: State, g: Session, r: Request)
    requires Right(h, s) && g !in s.sessions
    ensures Right(h.(asked := h.asked[g := r]), s)
  {
    var k := h.(asked := h.asked[g := r]);
    forall x | x in s.sessions ensures x in k.asked && PhaseRight(k, k.asked[x], s.sessions[x]) {
      PhaseSame(h, k, h.asked[x], s.sessions[x]);
    }
    hide PhaseRight;
  }

  /** A session gets a file that was opened for what it asked for. */
  lemma TakeRight(h: History, s: State, g: Session, f: FileId, p: Phase)
    requires Right(h, s) && g in h.asked && PhaseRight(h, h.asked[g], p)
    ensures Right(h, Go(Raise(s, f), g, p))
  {
    hide Add, Right, PhaseRight;
    MoveRight(h, s, Go(Raise(s, f), g, p), g, p);
  }

  lemma LookupRight(h: History, s: State, g: Session, compressed: bool, path: Path)
    requires Right(h, s) && g !in s.sessions
    ensures Right(Record(h, Lookup(g, compressed, path)), ApplyLookup(s, g, compressed, path))
  {
    var r, cache := Request(compressed, path), s.Cache(compressed);
    var k := Record(h, Lookup(g, compressed, path));
    AskedRight(h, s, g, r);
    assert k.asked[g] == r;
    if path in cache {
      var f := cache[path];
      assert PhaseRight(k, r, Holding(f)) by { assert For(k, f, r); }
      assert ApplyLookup(s, g, compressed, path) == Go(Raise(s, f), g, Holding(f));
      hide Add, Right, PhaseRight, ApplyLookup, Record, Go, Raise;
      TakeRight(k, s, g, f, Holding(f));
    } else {
      hide Right, Record;
      MoveRight(k, s, Go(s, g, Missed(compressed, path)), g, Missed(compressed, path));
    }
  }

  lemma PhaseSame(h: History, k: History, r: Request, p: Phase)
    requires PhaseRight(h, r, p) && forall f :: f in h.origins ==> f in k.origins && k.origins[f] == h.origins[f]
    ensures PhaseRight(k, r, p)
  {
  }

  lemma OpenRight(h: History, s: State, g: Session, id: FileId, content: Content, dirIndex: bool, now: int)
    requires Right(h, s) && g in s.sessions && s.sessions[g].Missed? && !s.Known(id)
    ensures Right(Record(h, OpenFile(g, id, content, dirIndex, now)), ApplyOpenFile(s, g, id, content, dirIndex, now))
  {
    var k, t := Record(h, OpenFile(g, id, content, dirIndex, now)), ApplyOpenFile(s, g, id, content, dirIndex, now);
    assert FilesRight(k, t.files) && For(k, id, h.asked[g]);
    assert CacheRight(k, t.plain, false) && CacheRight(k, t.packed, true);
    forall x | x in t.sessions ensures x in k.asked && PhaseRight(k, k.asked[x], t.sessions[x]) {
      if x != g { PhaseSame(h, k, h.asked[x], s.sessions[x]); }
    }
  }

  lemma PublishRight(h: History, s: State, g: Session)
    requires Right(h, s) && g in s.sessions && s.sessions[g].Opened?
    ensures Right(h, ApplyPublish(s, g))
  {
    hide Add;
    var p := s.sessions[g];
    var cache := s.Cache(p.compressed);
    assert PhaseRight(h, h.asked[g], p);
    if p.path in cache {
      var f := cache[p.path];
      assert For(h, f, Request(p.compressed, p.path));
      assert ApplyPublish(s, g) == Go(Raise(s, f), g, Lost(p.own, f));
      hide Right, ApplyPublish, Go, Raise;
      TakeRight(h, s, g, f, Lost(p.own, f));
    } else {
      var u := Go(Raise(s, p.own), g, Holding(p.own));
      assert ApplyPublish(s, g) == Put(u, p.compressed, p.path, p.own);
      hide Right, ApplyPublish, Put, Go, Raise;
      TakeRight(h, s, g, p.own, Holding(p.own));
      PutRight(h, u, p.compressed, p.path, p.own);
    }
  }

  lemma PutRight(h: History, s: State, compressed: bool, path: Path, f: FileId)
    requires Right(h, s) && For(h, f, Request(compressed, path))
    ensures Right(h, Put(s, compressed, path, f))
  {
    hide FilesRight, SessionsRight;
  }

  lemma ReaderRight(h: History, s: State, g: Session)
    requires Right(h, s) && g in s.sessions && s.sessions[g].Holding?
    ensures Right(h, ApplyNewReader(s, g))
  {
    var f := s.sessions[g].file;
    assert PhaseRight(h, h.asked[g], s.sessions[g]);
    hide Right;
    if !s.Big(f) {
      MoveRight(h, s, Go(s, g, Small(f)), g, Small(f));
    } else {
      var pool := s.Pool(f);
      hide State.Big, State.Pool;
      if pool == [] {
        MoveRight(h, s, Go(s, g, Opening(f)), g, Opening(f));
      } else {
        var r := pool[|pool| - 1];
        MoveRight(h, s, Go(s.(pools := s.pools[f := pool[..|pool| - 1]]), g, Large(f, r)), g, Large(f, r));
      }
    }
  }

  lemma OpenReaderRight(h: History, s: State, g: Session, id: ReaderId)
    requires Right(h, s) && g in s.sessions && s.sessions[g].Opening?
    ensures Right(h, ApplyOpenReader(s, g, id))
  {
    assert PhaseRight(h, h.asked[g], s.sessions[g]);
    MoveRight(h, s, ApplyOpenReader(s, g, id), g, Large(s.sessions[g].file, id));
  }

  lemma CloseRight(h: History, s: State, g: Session, seekOk: bool)
    requires Right(h, s) && g in s.sessions && (s.sessions[g].Small? || s.sessions[g].Large?)
    ensures Right(h, ApplyClose(s, g, seekOk))
  {
    var f, t := s.sessions[g].file, ApplyClose(s, g, seekOk);
    assert PhaseRight(h, h.asked[g], s.sessions[g]);
    assert t == s.(pools := t.pools, closes := t.closes, sessions := s.sessions[g := Dropping(f)]);
    hide Right, ApplyClose;
    MoveRight(h, s, t, g, Dropping(f));
  }

  lemma CleanRight(h: History, s: State, now: int, packedNow: int, ks: seq<Path>, cs: seq<Path>, keep: int)
    requires Right(h, s)
    ensures Right(h, ApplyClean(s, now, packedNow, ks, cs, keep))
  {
    hide FilesRight, SessionsRight, Swept, Stale;
  }

  lemma ReleaseOwnRight(h: History, s: State, g: Session)
    requires Right(h, s) && g in s.sessions && s.sessions[g].Lost?
    ensures Right(h, Apply(s, ReleaseOwn(g)))
  {
    assert PhaseRight(h, h.asked[g], s.sessions[g]);
    var p := s.sessions[g];
    MoveRight(h, s, Go(Release(s, p.own), g, Holding(p.file)), g, Holding(p.file));
  }

  lemma StepRight(h: History, s: State, t: Step)
    requires Right(h, s) && Enabled(s, t)
    ensures Right(Record(h, t), Apply(s, t))
  {
    match t
    case Lookup(g, compressed, path) => LookupRight(h, s, g, compressed, path);
    case OpenFile(g, id, content, dirIndex, now) => OpenRight(h, s, g, id, content, dirIndex, now);
    case Publish(g) => PublishRight(h, s, g);
    case ReleaseOwn(g) => ReleaseOwnRight(h, s, g);
    case NewReader(g) => ReaderRight(h, s, g);
    case OpenReader(g, id) => OpenReaderRight(h, s, g, id);
    case Close(g, seekOk) => CloseRight(h, s, g, seekOk);
    case Clean(now, packedNow, ks, cs, keep) => CleanRight(h, s, now, packedNow, ks, cs, keep);
    case ReleaseNext => SameRight(h, s, Apply(s, t));
    case _ => PlainRight(h, s, t);
  }

  /** The steps that only move a session. */
  lemma PlainRight(h: History, s: State, t: Step)
    requires Right(h, s) && Enabled(s, t)
    requires t.OpenFails? || t.HeaderFails? || t.NotModified? || t.OpenReaderFails? || t.Decrement?
    ensures Right(h, Apply(s, t))
  {
    var g := t.g;
    assert PhaseRight(h, h.asked[g], s.sessions[g]);
    var u := Apply(s, t);
    MoveRight(h, s, u, g, u.sessions[g]);
  }

  lemma {:induction false} RunRight(h: History, s: State, steps: seq<Step>, t: State)
    requires Right(h, s) && Reaches(s, steps, t)
    ensures Right(RecordAll(h, steps), t)
    decreases |steps|
  {
    if steps != [] {
      hide Right;
      StepRight(h, s, steps[0]);
      RunRight(Record(h, steps[0]), Apply(s, steps[0]), steps[1..], t);
    }
  }

  /**
   * In every run each entry of a cache is a file opened for its path and its encoding, and whatever file a
   * session holds or reads was opened for what the session asked for, and is still what was opened.
   */
  lemma RightFile(steps: seq<Step>, s: State)
    requires Reaches(START, steps, s)
    ensures var h := RecordAll(NO_HISTORY, steps);
      && (forall k :: k in s.plain ==> For(h, s.plain[k], Request(false, k)))
      && (forall k :: k in s.packed ==> For(h, s.packed[k], Request(true, k)))
      && (forall g, f :: g in s.sessions && s.sessions[g].Has(OnFile(f)) ==>
            g in h.asked && For(h, f, h.asked[g]) && f in s.files && s.files[f] == h.origins[f].file)
  {
    RunRight(NO_HISTORY, START, steps, s);
    var h := RecordAll(NO_HISTORY, steps);
    forall g, f | g in s.sessions && s.sessions[g].Has(OnFile(f))
      ensures g in h.asked && For(h, f, h.asked[g]) && f in s.files && s.files[f] == h.origins[f].file
    {
      assert PhaseRight(h, h.asked[g], s.sessions[g]);
    }
  }
}
