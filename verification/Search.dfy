/** What each move of a lookup keeps. A lookup stands at the text `b` of a node and has tried the
    alternatives of rank below `k` there; `Pending` says that no matching route has been passed over
    and `Ahead` is the set of nodes it may still enter. */
module Search {
  import opened Options
  import opened Shapes
  import opened Trie

  ghost predicate Pending(t: Tree, path: string, b: string, k: nat) {
    forall s :: s in Table(t) && Matches(s, path) ==> Later(b, k, s)
  }

  ghost function Ahead(t: Tree, b: string, k: nat): set<string> {
    set s | s in t && s != b && Later(b, k, s)
  }

  /** `s` is the one route of a table that a lookup of `path` may return. */
  ghost predicate BestIn(table: map<string, Route>, path: string, s: string) {
    && s in table && Matches(s, path)
    && forall r :: r in table && Matches(r, path) && r != s ==> Before(s, r)
  }

  ghost predicate Best(t: Tree, path: string, s: string) { BestIn(Table(t), path, s) }

  /** There is at most one best route. */
  lemma BestUnique(t: Tree, path: string, s: string, r: string)
    requires Best(t, path, s) && Best(t, path, r)
    ensures s == r
  {
    if s != r { BeforeTotal(s, r, path); }
  }

  /** Prefixes of a shape that fits have a remainder, and the rest of the shape fits it. */
  lemma FitsFrom(b: string, s: string, path: string)
    requires b <= s && Rest(s, path).Some?
    ensures Rest(b, path).Some? && Rest(s[|b|..], Rest(b, path).value) == Rest(s, path)
  {
    assert s == b + s[|b|..];
    RestAppend(b, s[|b|..], path);
  }

  /** How positions below a cell read from its parent's position. */
  lemma LaterChild(t: Tree, c: string, k: nat, s: string)
    requires Ok(t) && c in t && s in t && t[c].prefix != []
    ensures var q, x := t[c].base, t[c].prefix[0];
      Later(c, k, s) ==
        if !(q <= s) then Later(q, 0, s)
        else if q < s && s[|q|] == x then c <= s && (k == 0 || (|s| > |c| && Rank(s[|c|]) >= k))
        else q < s && Rank(s[|q|]) > Rank(x)
  {
    assert CellOk(t, c);
    var q, x := t[c].base, t[c].prefix;
    LaterSplit(q, x, k, s);
    if q < s && s[|q|] == c[|q|] {
      Through(t, c, s);
      LaterAt(c, k, s);
    }
  }

  /** No other cell that fits the path is passed over. */
  ghost predicate Passes(t: Tree, path: string, b: string, k: nat, b': string, k': nat) {
    forall s :: s in t && s != b && Rest(s, path).Some? && Later(b, k, s) ==> Later(b', k', s)
  }

  ghost predicate Narrows(t: Tree, b: string, k: nat, b': string, k': nat) {
    Ahead(t, b', k') <= Ahead(t, b, k) && |Ahead(t, b', k')| <= |Ahead(t, b, k)|
  }

  lemma AheadShrinks(t: Tree, b: string, k: nat, b': string, k': nat)
    requires forall s :: s in t && s != b' && Later(b', k', s) ==> s != b && Later(b, k, s)
    ensures Narrows(t, b, k, b', k')
    ensures b' in Ahead(t, b, k) ==> |Ahead(t, b', k')| < |Ahead(t, b, k)|
  {
    CardinalityMonotone(Ahead(t, b', k'), Ahead(t, b, k));
    if b' in Ahead(t, b, k) {
      CardinalityMonotone(Ahead(t, b', k'), Ahead(t, b, k) - {b'});
    }
  }

  lemma {:induction false} CardinalityMonotone(a: set<string>, b: set<string>)
    requires a <= b
    ensures |a| <= |b|
  {
    if a != {} {
      var x :| x in a;
      CardinalityMonotone(a - {x}, b - {x});
    }
  }

  ghost predicate NoStaticChild(t: Tree, q: string, x: char) {
    forall s :: s in t && t[s].base == q && t[s].kind == StaticKind && t[s].prefix != [] ==> t[s].prefix[0] != x
  }

  // ---------- starting ----------

  lemma Start(t: Tree, path: string, root: string)
    requires Ok(t) && root in t && t[root].base == []
    ensures Pending(t, path, root, 0)
  {
    forall s | s in t ensures Later(root, 0, s) { BelowRoot(t, root, s); }
  }

  lemma BelowRoot(t: Tree, root: string, s: string)
    requires Ok(t) && root in t && t[root].base == [] && s in t
    ensures root <= s && Later(root, 0, s)
  {
    assert CellOk(t, root) && CellOk(t, s);
    if s != root {
      var c := Toward(t, [], s);
      assert CellOk(t, c);
      assert SameStep(t, c, root);
    }
    LaterAt(root, 0, s);
  }

  // ---------- going down ----------

  /** Entering the child that the next alternative of rank `k` (or a static label) leads to. */
  lemma Enter(t: Tree, path: string, q: string, k: nat, c: string)
    requires Ok(t) && q in t && c in t && t[c].base == q && t[c].prefix != [] && Rest(q, path).Some?
    requires Pending(t, path, q, k)
    requires (k == 0 && Rest(q, path).value != [] && t[c].prefix[0] == Rest(q, path).value[0] && t[c].kind == StaticKind)
          || (k == 1 && t[c].kind == ParamKind)
    ensures Pending(t, path, c, 0)
    ensures c in Ahead(t, q, k) && Narrows(t, q, k, c, 0) && |Ahead(t, c, 0)| < |Ahead(t, q, k)|
  {
    assert CellOk(t, c);
    forall s | s in Table(t) && Matches(s, path) ensures Later(c, 0, s) {
      LaterAt(q, k, s);
      LaterChild(t, c, 0, s);
      if q <= s {
        FitsFrom(q, s, path);
        var y := s[|q|..];
        assert k == 0 && y != [] && Rank(y[0]) == 0 ==> y[0] == t[c].prefix[0];
        if q < s && s[|q|] == t[c].prefix[0] { Through(t, c, s); }
      }
    }
    forall s | s in t && s != c && Later(c, 0, s) ensures s != q && Later(q, k, s) {
      LaterAt(q, k, s);
      LaterChild(t, c, 0, s);
    }
    LaterAt(q, k, c);
    AheadShrinks(t, q, k, c, 0);
  }

  lemma EnterPasses(t: Tree, path: string, q: string, k: nat, c: string)
    requires Ok(t) && q in t && c in t && t[c].base == q && t[c].prefix != [] && Rest(q, path).Some?
    requires (k == 0 && Rest(q, path).value != [] && t[c].prefix[0] == Rest(q, path).value[0] && t[c].kind == StaticKind)
          || (k == 1 && t[c].kind == ParamKind)
    ensures Passes(t, path, q, k, c, 0)
  {
    assert CellOk(t, c);
    forall s | s in t && s != q && Rest(s, path).Some? && Later(q, k, s) ensures Later(c, 0, s) {
      LaterAt(q, k, s);
      LaterChild(t, c, 0, s);
      if q <= s {
        FitsFrom(q, s, path);
        if s[|q|] == t[c].prefix[0] { Through(t, c, s); }
      }
    }
  }

  // ---------- an alternative that is missing or does not apply ----------

  /** Moving on from rank `k` at `q`: nothing that matches continues `q` with that rank. */
  lemma Skip(t: Tree, path: string, q: string, k: nat)
    requires Ok(t) && q in t && Pending(t, path, q, k)
    requires k == 0 ==> q !in Table(t) || !Matches(q, path)
    requires forall s :: s in t && Rest(s, path).Some? && q < s ==> Rank(s[|q|]) != k
    ensures Pending(t, path, q, k + 1)
    ensures Narrows(t, q, k, q, k + 1) && Passes(t, path, q, k, q, k + 1)
  {
    forall s | s in t ensures Later(q, k + 1, s) ==> Later(q, k, s)
                      ensures s != q && Rest(s, path).Some? && Later(q, k, s) ==> Later(q, k + 1, s)
                      ensures s in Table(t) && Matches(s, path) ==> Later(q, k + 1, s) {
      LaterAt(q, k, s);
      LaterAt(q, k + 1, s);
      assert q <= s && |s| == |q| ==> s == q;
    }
    AheadShrinks(t, q, k, q, k + 1);
  }

  /** There is no static child for the next character (which may itself be a colon or a star). */
  lemma NoStatic(t: Tree, path: string, q: string, s: string)
    requires Ok(t) && q in t && Rest(q, path).Some?
    requires Rest(q, path).value != [] ==> NoStaticChild(t, q, Rest(q, path).value[0])
    requires s in t && Rest(s, path).Some? && q < s
    ensures Rank(s[|q|]) != 0
  {
    FitsFrom(q, s, path);
    var c := Toward(t, q, s);
    assert CellOk(t, c);
  }

  lemma NoParam(t: Tree, path: string, q: string, s: string)
    requires Ok(t) && q in t && Rest(q, path).Some?
    requires Rest(q, path).value == [] || NoChild(t, q, PARAM)
    requires s in t && Rest(s, path).Some? && q < s
    ensures Rank(s[|q|]) != 1
  {
    FitsFrom(q, s, path);
    if Rest(q, path).value != [] { NoneToward(t, q, PARAM, s); }
  }

  lemma NoAny(t: Tree, path: string, q: string, s: string)
    requires Ok(t) && q in t && NoChild(t, q, ANY)
    requires s in t && q < s
    ensures Rank(s[|q|]) != 2
  {
    NoneToward(t, q, ANY, s);
  }

  /** A static child whose prefix is not next on the path: back at the parent, past static text. */
  lemma Mismatch(t: Tree, path: string, c: string)
    requires Ok(t) && c in t && t[c].kind == StaticKind && t[c].base != []
    requires Rest(t[c].base, path).Some? && !(t[c].prefix <= Rest(t[c].base, path).value)
    requires Pending(t, path, c, 0)
    ensures Pending(t, path, t[c].base, 1)
    ensures Narrows(t, c, 0, t[c].base, 1)
  {
    assert CellOk(t, c);
    var q := t[c].base;
    forall s | s in Table(t) && Matches(s, path) ensures Later(q, 1, s) {
      LaterAt(q, 1, s);
      LaterChild(t, c, 0, s);
      if c <= s { MismatchedText(t, path, c, s); }
    }
    forall s | s in t && s != q && Later(q, 1, s) ensures s != c && Later(c, 0, s) {
      LaterAt(q, 1, s);
      LaterChild(t, c, 0, s);
    }
    AheadShrinks(t, c, 0, q, 1);
  }

  lemma MismatchPasses(t: Tree, path: string, c: string)
    requires Ok(t) && c in t && t[c].kind == StaticKind && t[c].base != []
    requires Rest(t[c].base, path).Some? && !(t[c].prefix <= Rest(t[c].base, path).value)
    ensures Passes(t, path, c, 0, t[c].base, 1)
  {
    assert CellOk(t, c);
    forall s | s in t && s != c && Rest(s, path).Some? && Later(c, 0, s) ensures Later(t[c].base, 1, s) {
      LaterAt(t[c].base, 1, s);
      LaterChild(t, c, 0, s);
      if c <= s { MismatchedText(t, path, c, s); }
    }
  }

  lemma MismatchedText(t: Tree, path: string, c: string, s: string)
    requires Ok(t) && c in t && t[c].kind == StaticKind && c <= s && Rest(s, path).Some?
    requires Rest(t[c].base, path).Some?
    ensures t[c].prefix <= Rest(t[c].base, path).value
  {
    assert CellOk(t, c);
    FitsFrom(c, s, path);
    RestAppend(t[c].base, t[c].prefix, path);
    RestStatic(t[c].prefix, Rest(t[c].base, path).value);
  }

  // ---------- going back up ----------

  function NextRank(k: Kind): nat { match k case StaticKind => 1 case ParamKind => 2 case AnyKind => 3 }

  /** Nothing is left below `c`: back at the parent, past the alternative `c` was. */
  lemma Leave(t: Tree, path: string, c: string)
    requires Ok(t) && c in t && t[c].base != [] && Pending(t, path, c, 3)
    ensures Pending(t, path, t[c].base, NextRank(t[c].kind))
    ensures Narrows(t, c, 3, t[c].base, NextRank(t[c].kind))
  {
    assert CellOk(t, c);
    var q, k := t[c].base, NextRank(t[c].kind);
    forall s | s in Table(t) && Matches(s, path) ensures Later(q, k, s) {
      LaterAt(q, k, s);
      LaterChild(t, c, 3, s);
    }
    forall s | s in t && s != q && Later(q, k, s) ensures s != c && Later(c, 3, s) {
      LaterAt(q, k, s);
      LaterChild(t, c, 3, s);
    }
    AheadShrinks(t, c, 3, q, k);
  }

  /** The same for the cells that fit the path, when there is no catch-all below `c`. */
  lemma LeavePasses(t: Tree, path: string, c: string)
    requires Ok(t) && c in t && t[c].base != [] && NoChild(t, c, ANY)
    ensures Passes(t, path, c, 2, t[c].base, NextRank(t[c].kind))
  {
    assert CellOk(t, c);
    var q, k := t[c].base, NextRank(t[c].kind);
    forall s | s in t && s != c && Rest(s, path).Some? && Later(c, 2, s) ensures Later(q, k, s) {
      LaterAt(q, k, s);
      LaterChild(t, c, 2, s);
      if c < s { NoAny(t, path, c, s); }
    }
  }

  // ---------- ending ----------

  lemma NothingLeft(t: Tree, path: string, root: string)
    requires Ok(t) && root in t && t[root].base == []
    requires Pending(t, path, root, 3) || !(root <= path)
    ensures forall s :: s in Table(t) ==> !Matches(s, path)
  {
    assert CellOk(t, root);
    forall s | s in Table(t) ensures !Matches(s, path) {
      BelowRoot(t, root, s);
      LaterAt(root, 3, s);
      if Matches(s, path) {
        FitsFrom(root, s, path);
        RestStatic(root, path);
      }
    }
  }

  lemma Arrived(t: Tree, path: string, b: string)
    requires Ok(t) && b in Table(t) && Matches(b, path) && Pending(t, path, b, 0)
    ensures Best(t, path, b)
  {
    forall r | r in Table(t) && Matches(r, path) && r != b ensures Before(b, r) { LaterBefore(b, r); }
  }

  /** A catch-all takes whatever is left. */
  lemma ArrivedAny(t: Tree, path: string, c: string)
    requires Ok(t) && c in t && t[c].kind == AnyKind && Rest(t[c].base, path).Some?
    requires t[c].base in t && Pending(t, path, t[c].base, 2)
    ensures Best(t, path, c)
    ensures Captures(c, path) == Captures(t[c].base, path) + [Rest(t[c].base, path).value]
  {
    assert CellOk(t, c);
    var q := t[c].base;
    RestAppend(q, [ANY], path);
    assert Captures([ANY], Rest(q, path).value) == [Rest(q, path).value];
    forall r | r in Table(t) && Matches(r, path) && r != c ensures Later(c, 0, r) {
      LaterAt(q, 2, r);
      LaterChild(t, c, 0, r);
    }
    LaterAt(c, 0, c);
    Arrived(t, path, c);
  }

  // ---------- the state of a lookup ----------

  /** A lookup stands at the cell `s`. The chain from the root has consumed the text `base` (which
      leaves out the prefix of a static cell that has just been entered), `search` is what remains of
      the path and starts at `index`, and `values` are the captures so far, one per wildcard. */
  ghost predicate Position(t: Tree, path: string, s: string, base: string, k: nat, search: string, index: nat, values: seq<string>)
  {
    && Ok(t) && s in t && t[s].kind != AnyKind
    && (base == s || (k == 0 && t[s].kind == StaticKind && base == t[s].base))
    && Rest(base, path) == Some(search)
    && |search| <= |path| && index == |path| - |search| && search == path[index..]
    && values == Captures(base, path) && |values| == Wildcards(base)
    && Pending(t, path, s, k)
  }

  /** The lookup moves on from `(s, k)` to `(s', k')`: it enters only cells that are still ahead, no cell
      comes back in front of it, none that fits is passed over, and its positions are well-founded. */
  ghost predicate Forward(t: Tree, path: string, s: string, k: nat, s': string, k': nat) {
    var a, a' := |Ahead(t, s, k)|, |Ahead(t, s', k')|;
    && Narrows(t, s, k, s', k') && Passes(t, path, s, k, s', k')
    && (k' == 0 ==> s' in Ahead(t, s, k))
    && (a' < a || (a' == a && (|s'| < |s| || (|s'| == |s| && k < k'))))
  }

  lemma PosStart(t: Tree, path: string, root: string)
    requires Ok(t) && root in t && t[root].base == []
    ensures Position(t, path, root, [], 0, path, 0, [])
  {
    assert CellOk(t, root);
    Start(t, path, root);
  }

  /** The static prefix is next on the path. */
  lemma PosMatch(t: Tree, path: string, s: string, base: string, search: string, index: nat, values: seq<string>)
    requires Position(t, path, s, base, 0, search, index, values)
    requires t[s].kind == StaticKind && base == t[s].base && t[s].prefix <= search
    ensures Position(t, path, s, s, 0, search[|t[s].prefix|..], index + |t[s].prefix|, values)
  {
    assert CellOk(t, s);
    RestAppend(base, t[s].prefix, path);
    RestStatic(t[s].prefix, search);
    WildcardsAppend(base, t[s].prefix);
    CapturesCount(s, path);
  }

  lemma PosMismatch(t: Tree, path: string, s: string, base: string, search: string, index: nat, values: seq<string>)
    requires Position(t, path, s, base, 0, search, index, values)
    requires t[s].kind == StaticKind && base == t[s].base && !(t[s].prefix <= search)
    ensures base != [] ==> Position(t, path, base, base, 1, search, index, values) && Forward(t, path, s, 0, base, 1)
    ensures base == [] ==> values == [] && !(s <= path) && forall r :: r in Table(t) ==> !Matches(r, path)
  {
    assert CellOk(t, s);
    if base == [] {
      NothingLeft(t, path, s);
    } else {
      Mismatch(t, path, s);
      MismatchPasses(t, path, s);
    }
  }

  lemma PosStatic(t: Tree, path: string, s: string, search: string, index: nat, values: seq<string>, c: string)
    requires Position(t, path, s, s, 0, search, index, values) && search != []
    requires c in t && t[c].base == s && t[c].kind == StaticKind && t[c].prefix != [] && t[c].prefix[0] == search[0]
    ensures Position(t, path, c, s, 0, search, index, values) && Forward(t, path, s, 0, c, 0)
  {
    Enter(t, path, s, 0, c);
    EnterPasses(t, path, s, 0, c);
  }

  lemma PosNoStatic(t: Tree, path: string, s: string, search: string, index: nat, values: seq<string>)
    requires Position(t, path, s, s, 0, search, index, values)
    requires search != [] ==> NoStaticChild(t, s, search[0])
    requires search == [] ==> s !in Table(t)
    ensures Position(t, path, s, s, 1, search, index, values) && Forward(t, path, s, 0, s, 1)
  {
    forall r | r in t && Rest(r, path).Some? && s < r ensures Rank(r[|s|]) != 0 { NoStatic(t, path, s, r); }
    Skip(t, path, s, 0);
  }

  lemma PosParam(t: Tree, path: string, s: string, search: string, index: nat, values: seq<string>, c: string)
    requires Position(t, path, s, s, 1, search, index, values) && search != []
    requires c in t && t[c].base == s && t[c].kind == ParamKind
    ensures var n := SegmentLength(search);
      && Position(t, path, c, c, 0, search[n..], index + n, values + [search[..n]])
      && Forward(t, path, s, 1, c, 0)
  {
    assert CellOk(t, c);
    RestAppend(s, [PARAM], path);
    assert Rest([PARAM], search) == Some(search[SegmentLength(search)..]);
    assert Captures([PARAM], search) == [search[..SegmentLength(search)]];
    WildcardsAppend(s, [PARAM]);
    Enter(t, path, s, 1, c);
    EnterPasses(t, path, s, 1, c);
  }

  lemma PosNoParam(t: Tree, path: string, s: string, search: string, index: nat, values: seq<string>)
    requires Position(t, path, s, s, 1, search, index, values) && (search == [] || NoChild(t, s, PARAM))
    ensures Position(t, path, s, s, 2, search, index, values) && Forward(t, path, s, 1, s, 2)
  {
    forall r | r in t && Rest(r, path).Some? && s < r ensures Rank(r[|s|]) != 1 { NoParam(t, path, s, r); }
    Skip(t, path, s, 1);
  }

  /** Nothing is left below `s`: what the move back to the parent has to restore. */
  lemma PosLeave(t: Tree, path: string, s: string, search: string, index: nat, values: seq<string>)
    requires Position(t, path, s, s, 2, search, index, values) && NoChild(t, s, ANY)
    ensures t[s].base == [] ==> forall r :: r in Table(t) ==> !Matches(r, path)
    ensures t[s].base == [] ==> t[s].kind == StaticKind && values == []
    ensures t[s].kind != AnyKind
    ensures t[s].kind == StaticKind ==> |t[s].prefix| <= index
    ensures t[s].kind == ParamKind ==> |values| > 0 && |values[|values| - 1]| <= index
    ensures t[s].base != [] ==>
      var q, text := t[s].base, t[s].kind == StaticKind;
      var index' := index - if text then |t[s].prefix| else |values[|values| - 1]|;
      && index' <= |path|
      && Position(t, path, q, q, NextRank(t[s].kind), path[index'..], index', if text then values else values[..|values| - 1])
      && Forward(t, path, s, 2, q, NextRank(t[s].kind))
  {
    assert CellOk(t, s);
    var q := t[s].base;
    forall r | r in t && Rest(r, path).Some? && s < r ensures Rank(r[|s|]) != 2 { NoAny(t, path, s, r); }
    Skip(t, path, s, 2);
    RestAppend(q, t[s].prefix, path);
    WildcardsAppend(q, t[s].prefix);
    CapturesCount(q, path);
    if t[s].kind == StaticKind { RestStatic(t[s].prefix, Rest(q, path).value); }
    if q == [] {
      NothingLeft(t, path, s);
    } else {
      Leave(t, path, s);
      LeavePasses(t, path, s);
    }
  }

  // ---------- whole lookups ----------

  /** What a lookup knows at one point: the cell, the rank of the alternative it is about to try, and its position. */
  datatype Spot = Spot(text: string, rank: nat, base: string, search: string, index: nat, values: seq<string>)

  ghost predicate Stands(t: Tree, path: string, a: Spot) {
    Position(t, path, a.text, a.base, a.rank, a.search, a.index, a.values)
  }

  /** Down to a child, on to the next alternative, or back to the parent, and never back to what was left. */
  ghost predicate Moves(t: Tree, path: string, a: Spot, b: Spot) {
    Adjacent(t, a.text, b.text, b.rank) && Forward(t, path, a.text, a.rank, b.text, b.rank)
  }

  ghost predicate Adjacent(t: Tree, s: string, s': string, k': nat) {
    && s in t && s' in t
    && (if k' == 0 then t[s'].base == s else s' == s || s' == t[s].base)
  }

  /** A lookup from the root: at each point the consumed text, the remaining path and the captured values agree. */
  ghost predicate Lookup(t: Tree, path: string, w: seq<Spot>) {
    && w != [] && w[0].rank == 0 && w[0].index == 0 && w[0].text in t && t[w[0].text].base == []
    && (forall i :: 0 <= i < |w| ==> Stands(t, path, w[i]))
    && (forall i :: 0 < i < |w| ==> Moves(t, path, w[i - 1], w[i]))
  }

  /** It ends at the accepting cell, or below its last point at an accepting catch-all. */
  ghost predicate EndsAt(t: Tree, w: seq<Spot>, best: string) {
    && w != []
    && var a := w[|w| - 1];
    || (a.rank == 0 && a.text == best)
    || (a.rank == 2 && best in t && t[best].base == a.text && t[best].kind == AnyKind)
  }

  lemma WalkOn(t: Tree, path: string, w: seq<Spot>, b: Spot)
    requires Lookup(t, path, w) && Stands(t, path, b) && Moves(t, path, w[|w| - 1], b)
    ensures Lookup(t, path, w + [b])
  {
    hide Stands, Moves;
    var v := w + [b];
    forall i | 0 < i < |v| ensures Moves(t, path, v[i - 1], v[i]) {
      if i < |w| { assert v[i] == w[i] && v[i - 1] == w[i - 1]; }
    }
  }

  lemma {:induction false} AheadOnly(t: Tree, path: string, w: seq<Spot>, i: nat, j: nat)
    requires Lookup(t, path, w) && i <= j < |w|
    ensures Ahead(t, w[j].text, w[j].rank) <= Ahead(t, w[i].text, w[i].rank)
    decreases j - i
  {
    if i < j {
      AheadOnly(t, path, w, i, j - 1);
      assert Moves(t, path, w[j - 1], w[j]);
    }
  }

  /** No cell is entered twice. */
  lemma EnteredOnce(t: Tree, path: string, w: seq<Spot>, i: nat, j: nat)
    requires Lookup(t, path, w) && i < j < |w| && w[i].rank == 0 && w[j].rank == 0
    ensures w[i].text != w[j].text
  {
    AheadOnly(t, path, w, i, j - 1);
    assert Moves(t, path, w[j - 1], w[j]);
  }

  // ---------- how a lookup ends ----------

  /** Every cell that fits the path has been entered, or is still ahead. */
  lemma {:induction false} EnteredOrAhead(t: Tree, path: string, w: seq<Spot>, i: nat, s: string)
    requires Lookup(t, path, w) && i < |w| && Ok(t) && s in t && Rest(s, path).Some?
    ensures Later(w[i].text, w[i].rank, s) || exists j :: 0 <= j <= i && w[j].rank == 0 && w[j].text == s
  {
    if i == 0 {
      BelowRoot(t, w[0].text, s);
    } else {
      EnteredOrAhead(t, path, w, i - 1, s);
      assert Moves(t, path, w[i - 1], w[i]);
      LaterAt(s, w[i - 1].rank, s);
    }
  }

  /** The next value has no slot: all are taken, and there is a wildcard child to enter. */
  ghost predicate Full(t: Tree, a: Spot, slots: nat) {
    && |a.values| == slots
    && ((a.rank == 1 && a.search != [] && a.text + [PARAM] in t) || (a.rank == 2 && a.text + [ANY] in t))
  }

  /** There is nowhere left to go back to. */
  ghost predicate Exhausted(t: Tree, path: string, a: Spot) {
    && a.text in t && t[a.text].base == []
    && ((a.rank == 0 && !(a.text <= path)) || (a.rank == 2 && NoChild(t, a.text, ANY)))
  }

  ghost predicate Within(w: seq<Spot>, slots: nat) { forall i :: 0 <= i < |w| ==> |w[i].values| <= slots }

  /** Where the way of a lookup ends: without a slot, at its result, or with nowhere to go back to. */
  ghost predicate Ends(t: Tree, path: string, w: seq<Spot>, slots: nat, panics: bool, found: bool, best: string) {
    && Lookup(t, path, w) && Within(w, slots)
    && (panics ==> Full(t, w[|w| - 1], slots))
    && (!panics && found ==> EndsAt(t, w, best))
    && (!panics && !found ==> Exhausted(t, path, w[|w| - 1]))
  }

  /** A lookup runs out of slots exactly when it meets a wildcard beyond them. */
  lemma PanicsExactly(t: Tree, path: string, w: seq<Spot>, slots: nat, panics: bool, found: bool, best: string)
    requires Ok(t) && Grown(t) && Ends(t, path, w, slots, panics, found, best)
    requires !panics && found ==> Best(t, path, best) && Wildcards(best) <= slots
    ensures panics <==> Overruns(Table(t), path, slots)
  {
    hide Ok, Grown, Best, Wildcards, Overrun, Full, EndsAt, Exhausted, Within, Table;
    if panics {
      assert Stands(t, path, w[|w| - 1]);
      FullOverruns(t, path, w[|w| - 1], slots);
    } else if s: string, k: nat :| s in Table(t) && Overrun(Table(t), path, slots, s, k) {
      hide Lookup;
      if found { EndsWithin(t, path, w, slots, best, s, k); } else { NoneWithin(t, path, w, slots, s, k); }
    }
  }

  /**
   * Some route has a wildcard for which there is no slot, it fits the path up to and including that wildcard,
   * and no matching route is preferred to that part of it.
   */
  ghost predicate Overruns(table: map<string, Route>, path: string, slots: nat) {
    exists s: string, k: nat :: s in table && Overrun(table, path, slots, s, k)
  }

  ghost predicate Overrun(table: map<string, Route>, path: string, slots: nat, s: string, k: nat) {
    && k < |s| && IsWild(s[k]) && Wildcards(s[..k]) == slots && Rest(s[..k + 1], path).Some?
    && forall b :: b in table && Matches(b, path) ==> !Before(b, s[..k + 1])
  }

  /** Every cell leads to a route. */
  ghost predicate Grown(t: Tree) { forall s :: s in t ==> exists r :: r in Table(t) && s <= r }

  lemma {:induction false} NotBefore(q: string, c: string, b: string)
    requires |c| == |q| + 1 && q <= c && Rank(c[|q|]) > 0 && Later(q, Rank(c[|q|]), b)
    ensures !Before(b, c)
  {
    if q != [] && b[0] == q[0] {
      assert c[0] == q[0] && c[1..][|q| - 1] == c[|q|];
      NotBefore(q[1..], c[1..], b[1..]);
    } else if q != [] {
      assert c[0] == q[0];
    }
  }

  /** A text that fits and leaves something fits with a parameter behind it, and with a catch-all in any case. */
  lemma FitsWild(q: string, x: char, path: string)
    requires Rest(q, path).Some? && IsWild(x) && (x == PARAM ==> Rest(q, path).value != [])
    ensures Rest(q + [x], path).Some?
  {
    RestAppend(q, [x], path);
    assert [x][1..] == [];
  }

  lemma FullOverruns(t: Tree, path: string, a: Spot, slots: nat)
    requires Grown(t) && Stands(t, path, a) && Full(t, a, slots)
    ensures Overruns(Table(t), path, slots)
  {
    hide Ok, Table, Rest, Captures, Wildcards, Matches, Before;
    var x := if a.rank == 1 then PARAM else ANY;
    var c, k := a.text + [x], |a.text|;
    FitsWild(a.text, x, path);
    var s :| s in Table(t) && c <= s;
    assert s[..k] == a.text && s[..k + 1] == c && s[k] == x;
    hide Stands, Full, Grown;
    forall b | b in Table(t) && Matches(b, path) ensures !Before(b, c) { NotBefore(a.text, c, b); }
    assert Overrun(Table(t), path, slots, s, k);
  }

  /** A wildcard of a text is a cell of its own. */
  lemma {:induction false} WildCell(t: Tree, s: string, k: nat)
    requires Ok(t) && s in t && k < |s| && IsWild(s[k])
    ensures s[..k + 1] in t && t[s[..k + 1]].kind != StaticKind
    decreases |s|
  {
    assert CellOk(t, s);
    var q := t[s].base;
    if k < |q| {
      WildCell(t, q, k);
      assert s[..k + 1] == q[..k + 1];
    } else {
      assert t[s].prefix[k - |q|] == s[k];
      assert s[..k + 1] == s;
    }
  }

  /** A lookup that does not run out of slots has not met a wildcard beyond them. */
  lemma EndsWithin(t: Tree, path: string, w: seq<Spot>, slots: nat, best: string, s: string, k: nat)
    requires Ok(t) && Lookup(t, path, w) && Within(w, slots) && s in Table(t)
    requires EndsAt(t, w, best) && Best(t, path, best) && Wildcards(best) <= slots
    ensures !Overrun(Table(t), path, slots, s, k)
  {
    if Overrun(Table(t), path, slots, s, k) {
      var c := s[..k + 1];
      NotEntered(t, path, w, slots, s, k);
      var a := w[|w| - 1];
      if a.rank == 2 {
        assert CellOk(t, best);
        LaterSplit(a.text, [ANY], 0, c);
        LaterAt(a.text, 2, c);
      }
      LaterBefore(best, c);
    }
  }

  lemma NoneWithin(t: Tree, path: string, w: seq<Spot>, slots: nat, s: string, k: nat)
    requires Ok(t) && Lookup(t, path, w) && Within(w, slots) && s in Table(t) && Exhausted(t, path, w[|w| - 1])
    ensures !Overrun(Table(t), path, slots, s, k)
  {
    if Overrun(Table(t), path, slots, s, k) {
      var a, c := w[|w| - 1], s[..k + 1];
      NotEntered(t, path, w, slots, s, k);
      BelowRoot(t, a.text, c);
      if a.rank == 0 {
        assert CellOk(t, a.text);
        FitsFrom(a.text, c, path);
        MismatchedText(t, path, a.text, c);
      } else {
        LaterAt(a.text, 2, c);
        NoAny(t, path, a.text, c);
      }
    }
  }

  lemma NotEntered(t: Tree, path: string, w: seq<Spot>, slots: nat, s: string, k: nat)
    requires Ok(t) && Lookup(t, path, w) && Within(w, slots) && s in Table(t) && Overrun(Table(t), path, slots, s, k)
    ensures var a, c := w[|w| - 1], s[..k + 1];
      c in t && Later(a.text, a.rank, c) && Wildcards(c) == slots + 1 && forall j :: 0 <= j < |w| ==> w[j].rank != 0 || w[j].text != c
  {
    var c := s[..k + 1];
    WildCell(t, s, k);
    assert c == s[..k] + [s[k]];
    WildcardsAppend(s[..k], [s[k]]);
    assert [s[k]][1..] == [];
    forall j | 0 <= j < |w| ensures w[j].rank != 0 || w[j].text != c { assert Stands(t, path, w[j]); }
    EnteredOrAhead(t, path, w, |w| - 1, c);
  }
}
