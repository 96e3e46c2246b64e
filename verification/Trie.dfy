/** The routing tree as a value: one cell per node, indexed by the text that leads from the root to
    the end of the node's prefix. `base` is the text before the prefix, which names the parent. */
module Trie {
  import opened Shapes

  datatype Kind = StaticKind | ParamKind | AnyKind

  /** A handler function, known only by its identity. An empty chain stands for `nil`. */
  datatype Handler = Handler(id: nat)
  type Handlers = seq<Handler>

  datatype Route = Route(handlers: Handlers, ppath: string, pnames: seq<string>)

  datatype Cell = Cell(kind: Kind, base: string, prefix: string, route: Route)

  type Tree = map<string, Cell>

  const NO_ROUTE := Route([], [], [])

  ghost predicate NoWild(s: string) { forall i :: 0 <= i < |s| ==> !IsWild(s[i]) }

  /** Static prefixes are free of wildcards, a wildcard stands alone in its cell. */
  ghost predicate PrefixOk(kind: Kind, prefix: string) {
    match kind
    case StaticKind => prefix != [] && NoWild(prefix)
    case ParamKind => prefix == [PARAM]
    case AnyKind => prefix == [ANY]
  }

  ghost predicate CellOk(t: Tree, s: string)
    requires s in t
  {
    var c := t[s];
    && PrefixOk(c.kind, c.prefix)
    && s == t[s].base + c.prefix
    && (t[s].base == [] ==> s[0] == '/')
    && (t[s].base != [] ==> t[s].base in t && t[t[s].base].kind != AnyKind)
    && (c.kind == AnyKind ==> c.route.handlers != [])
  }

  /** Siblings, and roots, differ in their first character. */
  ghost predicate Distinct(t: Tree) {
    forall s, r {:trigger SameStep(t, s, r)} :: s in t && r in t && SameStep(t, s, r) ==> s == r
  }

  ghost predicate SameStep(t: Tree, s: string, r: string)
    requires s in t && r in t
  {
    t[s].base == t[r].base && |t[s].base| < |s| && |t[s].base| < |r| && s[|t[s].base|] == r[|t[s].base|]
  }

  ghost predicate Ok(t: Tree) {
    && (forall s {:trigger CellOk(t, s)} :: s in t ==> CellOk(t, s))
    && Distinct(t)
  }

  /** The routes a tree represents, by shape. */
  ghost function Table(t: Tree): map<string, Route> {
    map s | s in t && t[s].route.handlers != [] :: t[s].route
  }

  // ---------- the radix property ----------

  /** Text in the tree that continues the text `q` of a cell (or of no cell, above the root) leads
      through a child of `q`. */
  lemma {:induction false} Toward(t: Tree, q: string, s: string) returns (c: string)
    requires Ok(t) && (q == [] || q in t) && s in t && q < s
    ensures c in t && t[c].base == q && q < c <= s
    decreases |s|
  {
    assert CellOk(t, s);
    var b := t[s].base;
    if b == q {
      c := s;
    } else if |b| > |q| {
      c := Toward(t, q, b);
    } else {
      assert b == s[..|b|] && q == s[..|q|];
      assert b < q;
      c := Toward(t, b, q);
      assert SameStep(t, c, s);
      assert false;
    }
  }

  /** Text that enters a cell's prefix runs through all of it: none ends or branches inside. */
  lemma Through(t: Tree, n: string, s: string)
    requires Ok(t) && n in t && s in t
    requires t[n].base < s && |t[n].base| < |n| && s[|t[n].base|] == n[|t[n].base|]
    ensures n <= s
  {
    assert CellOk(t, n);
    var c := Toward(t, t[n].base, s);
    assert SameStep(t, c, n);
  }

  // ---------- the edits registration makes ----------

  /** Cuts the cell `s` in two after `k` characters of its prefix. */
  function Split(t: Tree, s: string, k: nat): Tree
    requires s in t && k <= |t[s].prefix|
  {
    var c := t[s];
    var u := c.base + c.prefix[..k];
    t[s := c.(base := u, prefix := c.prefix[k..])][u := Cell(StaticKind, c.base, c.prefix[..k], NO_ROUTE)]
  }

  lemma SplitFresh(t: Tree, s: string, k: nat)
    requires Ok(t) && s in t && 0 < k < |t[s].prefix|
    ensures t[s].base + t[s].prefix[..k] !in t
  {
    assert CellOk(t, s);
    var u := t[s].base + t[s].prefix[..k];
    if u in t { Through(t, s, u); }
  }

  lemma SplitCell(t: Tree, s: string, k: nat, r: string)
    requires Ok(t) && s in t && 0 < k < |t[s].prefix| && r in Split(t, s, k)
    ensures CellOk(Split(t, s, k), r)
  {
    assert CellOk(t, s);
    SplitFresh(t, s, k);
    var u := t[s].base + t[s].prefix[..k];
    if r != u && r != s { assert CellOk(t, r); }
  }

  lemma SplitDistinct(t: Tree, s: string, k: nat, a: string, b: string)
    requires Ok(t) && s in t && 0 < k < |t[s].prefix|
    requires var t' := Split(t, s, k); a in t' && b in t' && SameStep(t', a, b)
    ensures a == b
  {
    SplitFresh(t, s, k);
    assert CellOk(t, s);
    var u := t[s].base + t[s].prefix[..k];
    if a == s || b == s {
      var r := if a == s then b else a;
      if r in t { assert CellOk(t, r); }
    } else {
      assert SameStep(t, if a == u then s else a, if b == u then s else b);
    }
  }

  lemma SplitOk(t: Tree, s: string, k: nat)
    requires Ok(t) && s in t && 0 < k < |t[s].prefix|
    ensures Ok(Split(t, s, k))
  {
    var t' := Split(t, s, k);
    forall r | r in t' ensures CellOk(t', r) { SplitCell(t, s, k, r); }
    forall a, b | a in t' && b in t' && SameStep(t', a, b) ensures a == b { SplitDistinct(t, s, k, a, b); }
  }

  lemma SplitTable(t: Tree, s: string, k: nat)
    requires Ok(t) && s in t && 0 < k < |t[s].prefix|
    ensures Table(Split(t, s, k)) == Table(t)
  {
    SplitFresh(t, s, k);
  }

  /** Hangs a new cell under the cell it names as its base. */
  function Grow(t: Tree, c: Cell): Tree { t[c.base + c.prefix := c] }

  /** The cell at `q` has no child behind the label `x`. */
  ghost predicate NoChild(t: Tree, q: string, x: char) {
    forall s :: s in t && t[s].base == q && t[s].prefix != [] ==> t[s].prefix[0] != x
  }

  /** Without a child behind a label, no text in the tree continues `q` with that label. */
  lemma NoneToward(t: Tree, q: string, x: char, s: string)
    requires Ok(t) && (q == [] || q in t) && NoChild(t, q, x) && s in t && q < s
    ensures s[|q|] != x
  {
    var c := Toward(t, q, s);
    assert CellOk(t, c);
  }

  ghost predicate CanGrow(t: Tree, c: Cell) {
    && PrefixOk(c.kind, c.prefix) && NoChild(t, c.base, c.prefix[0])
    && (if c.base == [] then c.prefix[0] == '/' else c.base in t && t[c.base].kind != AnyKind)
    && (c.kind == AnyKind ==> c.route.handlers != [])
  }

  lemma GrowFresh(t: Tree, c: Cell)
    requires Ok(t) && CanGrow(t, c)
    ensures c.base + c.prefix !in t
  {
    if c.base + c.prefix in t { NoneToward(t, c.base, c.prefix[0], c.base + c.prefix); }
  }

  lemma GrowCell(t: Tree, c: Cell, r: string)
    requires Ok(t) && CanGrow(t, c) && r in Grow(t, c)
    ensures CellOk(Grow(t, c), r)
  {
    GrowFresh(t, c);
    if r in t { assert CellOk(t, r); }
  }

  lemma GrowDistinct(t: Tree, c: Cell, a: string, b: string)
    requires Ok(t) && CanGrow(t, c)
    requires var t' := Grow(t, c); a in t' && b in t' && SameStep(t', a, b)
    ensures a == b
  {
    if a != c.base + c.prefix && b != c.base + c.prefix {
      assert SameStep(t, a, b);
    } else {
      var r := if a == c.base + c.prefix then b else a;
      if r in t { assert CellOk(t, r); }
    }
  }

  lemma GrowOk(t: Tree, c: Cell)
    requires Ok(t) && CanGrow(t, c)
    ensures Ok(Grow(t, c))
  {
    var t' := Grow(t, c);
    forall r | r in t' ensures CellOk(t', r) { GrowCell(t, c, r); }
    forall a, b | a in t' && b in t' && SameStep(t', a, b) ensures a == b { GrowDistinct(t, c, a, b); }
  }

  lemma GrowTable(t: Tree, c: Cell)
    requires Ok(t) && CanGrow(t, c)
    ensures Table(Grow(t, c)) == if c.route.handlers == [] then Table(t) else Table(t)[c.base + c.prefix := c.route]
  {
    GrowFresh(t, c);
  }

  /** Gives an existing cell a route. */
  function Assign(t: Tree, s: string, r: Route): Tree
    requires s in t
  {
    t[s := t[s].(route := r)]
  }

  lemma AssignCell(t: Tree, s: string, r: Route, x: string)
    requires Ok(t) && s in t && r.handlers != [] && x in t
    ensures CellOk(Assign(t, s, r), x)
  {
    assert CellOk(t, x);
  }

  lemma AssignDistinct(t: Tree, s: string, r: Route, a: string, b: string)
    requires Ok(t) && s in t && a in t && b in t && SameStep(Assign(t, s, r), a, b)
    ensures a == b
  {
    assert SameStep(t, a, b);
  }

  lemma AssignOk(t: Tree, s: string, r: Route)
    requires Ok(t) && s in t && r.handlers != []
    ensures Ok(Assign(t, s, r))
  {
    var t' := Assign(t, s, r);
    forall x | x in t' ensures CellOk(t', x) { AssignCell(t, s, r, x); }
    forall a, b | a in t' && b in t' && SameStep(t', a, b) ensures a == b { AssignDistinct(t, s, r, a, b); }
  }

  lemma AssignTable(t: Tree, s: string, r: Route)
    requires s in t && r.handlers != []
    ensures Table(Assign(t, s, r)) == Table(t)[s := r]
  {
  }

  // ---------- where inserted text leads ----------

  /** What registration guarantees about the text it inserts: a catch-all stands last, and the tree
      already has a cell on each side of every other wildcard. */
  ghost predicate Prepared(t: Tree, path: string, kind: Kind) {
    && path != [] && path[0] == '/'
    && (forall i :: 0 <= i < |path| && path[i] == ANY ==> i == |path| - 1 && kind == AnyKind)
    && (forall i :: 0 <= i < |path| && IsWild(path[i]) && (i < |path| - 1 || kind == StaticKind) ==> path[..i + 1] in t)
    && (kind != StaticKind ==>
          path[|path| - 1] == (if kind == ParamKind then PARAM else ANY) && path[..|path| - 1] in t)
  }

  /** The walk of an insertion stands before the prefix of the cell `s`, with `search` to go. */
  ghost predicate Standing(t: Tree, path: string, s: string, search: string) {
    && s in t && path == t[s].base + search && search != [] && t[s].prefix != [] && search[0] == t[s].prefix[0]
  }

  /** Wildcards of the inserted text are reached only through whole cells. */
  lemma WildBeyond(t: Tree, path: string, kind: Kind, s: string, search: string, i: nat)
    requires Ok(t) && Prepared(t, path, kind) && Standing(t, path, s, search)
    requires |t[s].base| < i < |path| && IsWild(path[i])
    ensures s <= path && |s| <= i + 1 && (|s| == i + 1 ==> i < |path| - 1 || kind == StaticKind)
  {
    var b := if i < |path| - 1 || kind == StaticKind then path[..i + 1] else path[..i];
    assert CellOk(t, s);
    assert b in t && t[s].base < b;
    Through(t, s, b);
  }

  /** The inserted text ends inside a prefix: it is static and new. */
  lemma EndsInside(t: Tree, path: string, kind: Kind, s: string, search: string)
    requires Ok(t) && Prepared(t, path, kind) && Standing(t, path, s, search) && search < t[s].prefix
    ensures kind == StaticKind && t[s].kind == StaticKind && path !in t
  {
    assert CellOk(t, s);
    if path in t { Through(t, s, path); }
    assert path[|path| - 1] == t[s].prefix[|search| - 1];
  }

  /** The inserted text leaves a prefix after `k` characters: a static branch. */
  lemma BranchesInside(t: Tree, path: string, kind: Kind, s: string, search: string, k: nat)
    requires Ok(t) && Prepared(t, path, kind) && Standing(t, path, s, search)
    requires 0 < k < |search| && k < |t[s].prefix| && search[..k] == t[s].prefix[..k] && search[k] != t[s].prefix[k]
    ensures kind == StaticKind && NoWild(search[k..])
    ensures path !in t && t[s].kind == StaticKind
  {
    assert CellOk(t, s);
    var b := |t[s].base|;
    assert path[b + k] == search[k] && s[b + k] == t[s].prefix[k];
    if path in t { Through(t, s, path); }
    forall i | k <= i < |search| ensures !IsWild(search[i]) {
      assert path[b + i] == search[i];
      if IsWild(path[b + i]) { WildBeyond(t, path, kind, s, search, b + i); }
    }
    assert path[|path| - 1] == search[|search| - 1];
  }

  lemma BranchGrows(t: Tree, path: string, s: string, k: nat, c: Cell)
    requires Ok(t) && s in t && 0 < k < |t[s].prefix| && c.kind == StaticKind
    requires c.prefix != [] && NoWild(c.prefix) && c.prefix[0] != t[s].prefix[k] && c.base == t[s].base + t[s].prefix[..k]
    ensures CanGrow(Split(t, s, k), c)
  {
    assert CellOk(t, s);
    SplitFresh(t, s, k);
    var t' := Split(t, s, k);
    forall r | r in t' && t'[r].base == c.base ensures r == s {
      if r in t { assert CellOk(t, r); }
    }
  }

  /** The inserted text runs out of cells at `s`. */
  lemma Continues(t: Tree, path: string, s: string, c: Cell)
    requires Ok(t) && Prepared(t, path, c.kind) && s in t && c.base == s && path == s + c.prefix && c.prefix != []
    requires NoChild(t, s, c.prefix[0]) && (c.kind == AnyKind ==> c.route.handlers != [])
    ensures CanGrow(t, c) && path !in t
  {
    assert CellOk(t, s);
    if path in t { NoneToward(t, s, c.prefix[0], path); }
    assert path[|s| - 1] == s[|s| - 1] == t[s].prefix[|t[s].prefix| - 1];
    forall i | 0 <= i < |c.prefix| && IsWild(c.prefix[i]) ensures i == 0 && |c.prefix| == 1 && c.kind != StaticKind {
      var j := |s| + i;
      assert path[j] == c.prefix[i];
      var b := if j < |path| - 1 || c.kind == StaticKind then path[..j + 1] else path[..j];
      assert b in t;
      if |b| > |s| { assert b[|s|] == c.prefix[0]; NoneToward(t, s, c.prefix[0], b); }
    }
    if c.kind != StaticKind { assert path[|path| - 1] == c.prefix[|c.prefix| - 1]; }
  }

  lemma NextCell(t: Tree, path: string, s: string, search: string, c: string)
    requires Ok(t) && Standing(t, path, s, search) && t[s].prefix < search
    requires c in t && t[c].base == s && t[c].prefix != [] && t[c].prefix[0] == search[|t[s].prefix|]
    ensures Standing(t, path, c, search[|t[s].prefix|..])
  {
    assert CellOk(t, s) && CellOk(t, c);
  }
}
