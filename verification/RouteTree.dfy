/** The routing tree of one HTTP method as linked nodes: registration splits nodes in place, lookup
    walks down, and back up through parent links, in one loop. The ghost fields of a router tie the
    nodes to the tree as a value. */
module RouteTree {
  import opened Shapes
  import opened Params
  import opened Trie
  import opened Search


  /** What a table may hold under the shape `s`. */
  ghost predicate RouteOk(s: string, r: Route) {
    ValidPath(r.ppath) && Shape(r.ppath) == s && Names(r.ppath) == r.pnames
  }

  ghost predicate TableOk(t: map<string, Route>) { forall s :: s in t ==> RouteOk(s, t[s]) }

  lemma TableOkSet(t: map<string, Route>, s: string, r: Route)
    requires TableOk(t) && RouteOk(s, r)
    ensures TableOk(t[s := r])
  {
    hide RouteOk;
  }

  class Node {
    var kind: Kind
    var mark: char
    var prefix: string
    var parent: Node?
    var children: seq<Node>
    var ppath: string
    var pnames: seq<string>
    var handlers: Handlers
    var paramChild: Node?
    var anyChild: Node?

    constructor (kind: Kind, prefix: string, parent: Node?, children: seq<Node>, route: Route,
                 paramChild: Node?, anyChild: Node?)
      requires prefix != []
      ensures View() == Fields(kind, prefix[0], prefix, parent, children, route, paramChild, anyChild)
    {
      this.kind, this.mark, this.prefix, this.parent, this.children := kind, prefix[0], prefix, parent, children;
      this.handlers, this.ppath, this.pnames := route.handlers, route.ppath, route.pnames;
      this.paramChild, this.anyChild := paramChild, anyChild;
    }

    /** The zero node a router starts from. */
    constructor Zero()
      ensures View() == Fields(StaticKind, '\0', [], null, [], NO_ROUTE, null, null)
    {
      kind, mark, prefix, parent, children := StaticKind, '\0', [], null, [];
      handlers, ppath, pnames, paramChild, anyChild := [], [], [], null, null;
    }

    ghost function View(): Fields
      reads this
    {
      Fields(kind, mark, prefix, parent, children, Route(handlers, ppath, pnames), paramChild, anyChild)
    }

    /** Turns the node into the upper half of a split. */
    method KeepUpper(k: nat, n: Node)
      requires 0 < k < |prefix|
      modifies this
      ensures View() == UpperHalf(old(View()), k, n)
    {
      kind, mark, prefix := StaticKind, prefix[0], prefix[..k];
      children, handlers, ppath, pnames := [n], [], [], [];
      paramChild, anyChild := null, null;
    }

    method FindChild(l: char) returns (c: Node?)
      ensures c != null ==> c in children && c.mark == l
      ensures c == null ==> forall d :: d in children ==> d.mark != l
    {
      var i := 0;
      while i < |children|
        invariant 0 <= i <= |children|
        invariant forall j :: 0 <= j < i ==> children[j].mark != l
      {
        if children[i].mark == l { return children[i]; }
        i := i + 1;
      }
      return null;
    }

    method FindChildWithLabel(l: char) returns (c: Node?)
      ensures c != null ==> (c in children && c.mark == l) || (l == PARAM && c == paramChild) || (l == ANY && c == anyChild)
      ensures c == null ==> forall d :: d in children ==> d.mark != l
      ensures c == null ==> (l == PARAM ==> paramChild == null) && (l == ANY ==> anyChild == null)
    {
      c := FindChild(l);
      if c != null { return; }
      if l == PARAM { return paramChild; }
      if l == ANY { return anyChild; }
    }
  }

  /** The nodes below a node with these fields. */
  ghost function Under(v: Fields): set<Node> {
    (set c | c in v.children) + (if v.paramChild == null then {} else {v.paramChild}) + (if v.anyChild == null then {} else {v.anyChild})
  }

  /** Hands the children of `cn` over to the node `n` that takes its place. */
  method Adopt(cn: Node, n: Node, ghost nodes: set<Node>)
    requires cn !in Under(cn.View()) && Under(cn.View()) <= nodes && n !in nodes
    modifies Under(cn.View())`parent
    ensures n.View() == old(n.View())
    ensures forall m :: m in nodes ==>
      m.View() == if m in Under(old(cn.View())) then old(m.View()).(parent := n) else old(m.View())
  {
    var i := 0;
    while i < |cn.children|
      invariant 0 <= i <= |cn.children|
      invariant forall j :: 0 <= j < i ==> cn.children[j].parent == n
    {
      cn.children[i].parent := n;
      i := i + 1;
    }
    if cn.paramChild != null { cn.paramChild.parent := n; }
    if cn.anyChild != null { cn.anyChild.parent := n; }
  }

  /** How the fields of some nodes change when `cn`, whose fields were `v`, is cut in two: the new
      node takes over the lower half of the prefix, the route and the children; the old node keeps
      the upper half and has the new node as its child. */
  ghost predicate Cuts(cn: Node, v: Fields, k: nat, n: Node, before: map<Node, Fields>, after: map<Node, Fields>)
    requires 0 < k < |v.prefix|
  {
    && after.Keys == before.Keys + {n}
    && cn in after && after[cn] == UpperHalf(v, k, n) && after[n] == LowerHalf(v, k, cn)
    && forall m :: m in before && m != cn ==> after[m] == if m in Under(v) then before[m].(parent := n) else before[m]
  }

  method Cut(cn: Node, k: nat, ghost nodes: set<Node>) returns (n: Node)
    requires 0 < k < |cn.prefix| && cn in nodes && cn !in Under(cn.View()) && Under(cn.View()) <= nodes
    modifies cn, Under(cn.View())`parent
    ensures fresh(n)
    ensures Cuts(cn, old(cn.View()), k, n, old(Snapshot(nodes)), Snapshot(nodes + {n}))
  {
    hide Under;
    ghost var v := cn.View();
    n := new Node(cn.kind, cn.prefix[k..], cn, cn.children, Route(cn.handlers, cn.ppath, cn.pnames),
                  cn.paramChild, cn.anyChild);
    assert n.View() == LowerHalf(v, k, cn);
    Adopt(cn, n, nodes);
    assert cn.View() == v;
    cn.KeepUpper(k, n);
  }

  // ---------- nodes against cells ----------

  /** The fields of a node, as a value. */
  datatype Fields = Fields(kind: Kind, mark: char, prefix: string, parent: Node?, children: seq<Node>,
                           route: Route, paramChild: Node?, anyChild: Node?)

  /** A tree with the node of each cell, the cell of each node, and the fields of each node. */
  datatype Index = Index(tree: Tree, at: map<string, Node>, text: map<Node, string>, views: map<string, Fields>)

  ghost predicate Indexed(x: Index) {
    && x.at.Keys == x.tree.Keys && x.views.Keys == x.tree.Keys
    && (forall s :: s in x.at ==> x.at[s] in x.text && x.text[x.at[s]] == s)
    && (forall n :: n in x.text ==> x.text[n] in x.at && x.at[x.text[n]] == n)
  }

  ghost predicate IsKid(x: Index, d: Node?, s: string, k: Kind) {
    d != null && d in x.text && x.text[d] in x.tree && x.tree[x.text[d]].base == s && x.tree[x.text[d]].kind == k
  }

  ghost predicate HasKid(x: Index, v: Fields, r: string)
    requires r in x.tree && r in x.at
  {
    match x.tree[r].kind
    case StaticKind => x.at[r] in v.children
    case ParamKind => v.paramChild == x.at[r]
    case AnyKind => v.anyChild == x.at[r]
  }

  /** A node with these fields is the node of the cell `s`: contents, parent link, child links. */
  ghost predicate Agrees(x: Index, s: string, v: Fields)
  {
    && s in x.tree
    && var c := x.tree[s];
    && v.kind == c.kind && v.prefix == c.prefix && (c.prefix != [] ==> v.mark == c.prefix[0]) && v.route == c.route
    && (if c.base == [] then v.parent == null else c.base in x.at && v.parent == x.at[c.base])
    && (forall d :: d in v.children ==> IsKid(x, d, s, StaticKind))
    && (v.paramChild != null ==> IsKid(x, v.paramChild, s, ParamKind))
    && (v.anyChild != null ==> IsKid(x, v.anyChild, s, AnyKind))
    && (forall r {:trigger HasKid(x, v, r)} :: r in x.tree && r in x.at && x.tree[r].base == s ==> HasKid(x, v, r))
  }

  ghost predicate Rooted(x: Index, n: Node) { n in x.text && x.text[n] in x.tree && x.tree[x.text[n]].base == [] }

  ghost function Routes(x: Index): map<string, Route> { Table(x.tree) }

  ghost predicate Good(x: Index) {
    && Indexed(x) && Ok(x.tree)
    && (forall s {:trigger Agrees(x, s, x.views[s])} :: s in x.tree ==> Agrees(x, s, x.views[s]))
  }

  /** These are the fields of all the nodes. */
  ghost predicate Describes(x: Index, views: map<Node, Fields>)
    requires x.at.Keys == x.views.Keys
  {
    views.Keys == x.text.Keys && forall s :: s in x.at ==> x.at[s] in views && views[x.at[s]] == x.views[s]
  }

  ghost function Snapshot(nodes: set<Node>): (m: map<Node, Fields>)
    reads nodes
    ensures m.Keys == nodes
  {
    map n | n in nodes :: n.View()
  }

  /** Exactly the nodes of the cells based at `s` are below the node of `s`. */
  lemma Below(x: Index, s: string)
    requires Good(x) && s in x.tree
    ensures forall c :: c in Under(x.views[s]) ==> c in x.text && x.tree[x.text[c]].base == s
    ensures forall r :: r in x.tree && x.tree[r].base == s ==> x.at[r] in Under(x.views[s])
    ensures x.at[s] !in Under(x.views[s])
  {
    var v := x.views[s];
    assert Agrees(x, s, v) && CellOk(x.tree, s);
    forall r | r in x.tree && x.tree[r].base == s ensures x.at[r] in Under(v) { assert HasKid(x, v, r); }
  }

  // ---------- splitting a node ----------

  ghost predicate CanSplit(x: Index, s: string, k: nat, n: Node) {
    Good(x) && s in x.tree && 0 < k < |x.views[s].prefix| && x.views[s].prefix == x.tree[s].prefix && n !in x.text
  }

  ghost function Upper(x: Index, s: string, k: nat): string
    requires s in x.tree && k <= |x.tree[s].prefix|
  {
    x.tree[s].base + x.tree[s].prefix[..k]
  }

  /** The fields of the two halves of a node that is cut after `k` characters. */
  ghost function LowerHalf(v: Fields, k: nat, cn: Node): Fields
    requires k < |v.prefix|
  {
    v.(prefix := v.prefix[k..], mark := v.prefix[k], parent := cn)
  }

  ghost function UpperHalf(v: Fields, k: nat, n: Node): Fields
    requires 0 < k < |v.prefix|
  {
    Fields(StaticKind, v.prefix[0], v.prefix[..k], v.parent, [n], NO_ROUTE, null, null)
  }

  /** The old node keeps the upper half; `n` takes over the text `s`. */
  ghost function SplitIndex(x: Index, s: string, k: nat, n: Node): Index
    requires CanSplit(x, s, k, n)
  {
    var u := Upper(x, s, k);
    var v := x.views[s];
    var rest := map r | r in x.tree :: if x.tree[r].base == s then x.views[r].(parent := n) else x.views[r];
    Index(Split(x.tree, s, k), x.at[s := n][u := x.at[s]], x.text[n := s][x.at[s] := u],
          rest[s := LowerHalf(v, k, x.at[s])][u := UpperHalf(v, k, n)])
  }

  lemma SplitIndexed(x: Index, s: string, k: nat, n: Node)
    requires CanSplit(x, s, k, n)
    ensures Indexed(SplitIndex(x, s, k, n))
    ensures Upper(x, s, k) !in x.at && Upper(x, s, k) != s
  {
    SplitFresh(x.tree, s, k);
  }

  /** Whoever was a child of some cell still is, under the text its parent has now. */
  lemma SplitKid(x: Index, s: string, k: nat, n: Node, d: Node, q: string, kind: Kind)
    requires CanSplit(x, s, k, n) && IsKid(x, d, q, kind)
    ensures IsKid(SplitIndex(x, s, k, n), d, q, kind)
  {
    SplitFresh(x.tree, s, k);
    assert CellOk(x.tree, s);
  }

  lemma SplitOther(x: Index, s: string, k: nat, n: Node, r: string)
    requires CanSplit(x, s, k, n) && r != s && r in x.tree
    ensures var x' := SplitIndex(x, s, k, n); r in x'.views && Agrees(x', r, x'.views[r])
  {
    var x' := SplitIndex(x, s, k, n);
    var v := x.views[r];
    SplitIndexed(x, s, k, n);
    assert CellOk(x.tree, s) && CellOk(x.tree, r) && Agrees(x, r, v);
    forall d | d in v.children ensures IsKid(x', d, r, StaticKind) { SplitKid(x, s, k, n, d, r, StaticKind); }
    if v.paramChild != null { SplitKid(x, s, k, n, v.paramChild, r, ParamKind); }
    if v.anyChild != null { SplitKid(x, s, k, n, v.anyChild, r, AnyKind); }
    forall c | c in x'.tree && c in x'.at && x'.tree[c].base == r ensures HasKid(x', x'.views[r], c) {
      assert HasKid(x, v, if c == Upper(x, s, k) then s else c);
    }
  }

  lemma SplitLower(x: Index, s: string, k: nat, n: Node)
    requires CanSplit(x, s, k, n)
    ensures var x' := SplitIndex(x, s, k, n); s in x'.views && Agrees(x', s, x'.views[s])
  {
    var x' := SplitIndex(x, s, k, n);
    var v := x.views[s];
    SplitIndexed(x, s, k, n);
    assert CellOk(x.tree, s) && Agrees(x, s, v);
    forall d | d in v.children ensures IsKid(x', d, s, StaticKind) { SplitKid(x, s, k, n, d, s, StaticKind); }
    if v.paramChild != null { SplitKid(x, s, k, n, v.paramChild, s, ParamKind); }
    if v.anyChild != null { SplitKid(x, s, k, n, v.anyChild, s, AnyKind); }
    forall c | c in x'.tree && c in x'.at && x'.tree[c].base == s ensures HasKid(x', x'.views[s], c) {
      assert HasKid(x, v, c);
    }
  }

  lemma SplitUpper(x: Index, s: string, k: nat, n: Node)
    requires CanSplit(x, s, k, n)
    ensures var x' := SplitIndex(x, s, k, n); var u := Upper(x, s, k); u in x'.views && Agrees(x', u, x'.views[u])
  {
    SplitIndexed(x, s, k, n);
    assert CellOk(x.tree, s) && Agrees(x, s, x.views[s]);
    forall c | c in x.tree ensures x.tree[c].base != Upper(x, s, k) { assert CellOk(x.tree, c); }
  }

  lemma SplitGood(x: Index, s: string, k: nat, n: Node)
    requires CanSplit(x, s, k, n)
    ensures Good(SplitIndex(x, s, k, n)) && SplitIndex(x, s, k, n).text.Keys == x.text.Keys + {n}
    ensures Routes(SplitIndex(x, s, k, n)) == Routes(x)
    ensures SplitIndex(x, s, k, n).tree.Keys == x.tree.Keys + {Upper(x, s, k)}
    ensures var x' := SplitIndex(x, s, k, n); x'.tree == Split(x.tree, s, k) && x'.text[x.at[s]] == Upper(x, s, k)
  {
    hide Agrees, CellOk, LowerHalf, UpperHalf;
    var x' := SplitIndex(x, s, k, n);
    SplitIndexed(x, s, k, n);
    SplitOk(x.tree, s, k);
    SplitTable(x.tree, s, k);
    SplitLower(x, s, k, n);
    SplitUpper(x, s, k, n);
    forall r | r in x'.tree ensures Agrees(x', r, x'.views[r]) {
      if r != s && r in x.tree { SplitOther(x, s, k, n, r); }
    }
  }

  lemma SplitRooted(x: Index, s: string, k: nat, n: Node, root: Node)
    requires CanSplit(x, s, k, n) && Rooted(x, root)
    ensures Rooted(SplitIndex(x, s, k, n), root)
  {
    hide Agrees, CellOk, LowerHalf, UpperHalf;
    SplitIndexed(x, s, k, n);
  }

  /** What the two halves and the adopted children look like after the cut is what the new index says. */
  lemma SplitCoupled(x: Index, s: string, k: nat, n: Node, before: map<Node, Fields>, after: map<Node, Fields>)
    requires CanSplit(x, s, k, n) && Describes(x, before) && Cuts(x.at[s], x.views[s], k, n, before, after)
    ensures Describes(SplitIndex(x, s, k, n), after)
  {
    hide Agrees, CellOk, LowerHalf, UpperHalf, Under, Ok, Split;
    SplitIndexed(x, s, k, n);
    Below(x, s);
    var x' := SplitIndex(x, s, k, n);
    assert x'.text.Keys == after.Keys;
    forall r | r in x'.at ensures x'.at[r] in after && after[x'.at[r]] == x'.views[r] {
      if r in x.at && r != s {
        assert x.at[r] != x.at[s];
        assert x'.at[r] == x.at[r];
      }
    }
  }

  // ---------- hanging a new node under another ----------

  ghost function WithKid(v: Fields, kind: Kind, n: Node): Fields {
    match kind
    case StaticKind => v.(children := v.children + [n])
    case ParamKind => v.(paramChild := n)
    case AnyKind => v.(anyChild := n)
  }

  ghost predicate MayGrow(x: Index, c: Cell, n: Node) {
    Good(x) && c.base in x.tree && CanGrow(x.tree, c) && n !in x.text
  }

  ghost function NewFields(c: Cell, parent: Node): Fields
    requires c.prefix != []
  {
    Fields(c.kind, c.prefix[0], c.prefix, parent, [], c.route, null, null)
  }

  ghost function GrowIndex(x: Index, c: Cell, n: Node): Index
    requires MayGrow(x, c, n)
  {
    var s, q := c.base + c.prefix, c.base;
    Index(Grow(x.tree, c), x.at[s := n], x.text[n := s],
          x.views[q := WithKid(x.views[q], c.kind, n)][s := NewFields(c, x.at[q])])
  }

  lemma GrowOther(x: Index, c: Cell, n: Node, r: string)
    requires MayGrow(x, c, n) && r in x.tree && r != c.base
    ensures var x' := GrowIndex(x, c, n); r in x'.views && Agrees(x', r, x'.views[r])
  {
    GrowFresh(x.tree, c);
    var x', v := GrowIndex(x, c, n), x.views[r];
    assert Agrees(x, r, v) && x'.views[r] == v && Indexed(x) && x'.tree[r] == x.tree[r];
    hide Good, CanGrow, WithKid, NewFields;
    forall d, k | IsKid(x, d, r, k) ensures IsKid(x', d, r, k) { }
    forall k | k in x'.tree && k in x'.at && x'.tree[k].base == r ensures HasKid(x', v, k) {
      assert k in x.tree && HasKid(x, v, k);
    }
    hide IsKid, HasKid, Indexed;
  }

  /** The parent has one more child. */
  lemma GrowParent(x: Index, c: Cell, n: Node)
    requires MayGrow(x, c, n)
    ensures var x' := GrowIndex(x, c, n); c.base in x'.views && Agrees(x', c.base, x'.views[c.base])
  {
    GrowFresh(x.tree, c);
    var r := c.base;
    var x', v := GrowIndex(x, c, n), x.views[r];
    assert Agrees(x, r, v);
    forall k | k in x'.tree && k in x'.at && x'.tree[k].base == r ensures HasKid(x', x'.views[r], k) {
      if k in x.tree {
        assert HasKid(x, v, k) && CellOk(x.tree, k);
      }
    }
  }

  lemma GrowAgrees(x: Index, c: Cell, n: Node, r: string)
    requires MayGrow(x, c, n) && r in x.tree
    ensures var x' := GrowIndex(x, c, n); r in x'.views && Agrees(x', r, x'.views[r])
  {
    hide Agrees, GrowIndex;
    if r == c.base { GrowParent(x, c, n); } else { GrowOther(x, c, n, r); }
  }

  lemma GrowNew(x: Index, c: Cell, n: Node)
    requires MayGrow(x, c, n)
    ensures var x', s := GrowIndex(x, c, n), c.base + c.prefix; s in x'.views && Agrees(x', s, x'.views[s])
  {
    GrowFresh(x.tree, c);
    assert CellOk(x.tree, c.base);
    forall r | r in x.tree ensures x.tree[r].base != c.base + c.prefix { assert CellOk(x.tree, r); }
  }

  lemma GrowGood(x: Index, c: Cell, n: Node)
    requires MayGrow(x, c, n)
    ensures Good(GrowIndex(x, c, n))
  {
    GrowFresh(x.tree, c);
    GrowOk(x.tree, c);
    GrowNew(x, c, n);
    hide Agrees, CellOk, Ok, CanGrow, WithKid, NewFields;
    var x' := GrowIndex(x, c, n);
    forall r | r in x'.tree ensures Agrees(x', r, x'.views[r]) {
      if r in x.tree { GrowAgrees(x, c, n, r); }
    }
  }

  /** One more node, one more text and, with handlers, one more route. */
  lemma GrowFacts(x: Index, c: Cell, n: Node)
    requires MayGrow(x, c, n)
    ensures var x' := GrowIndex(x, c, n);
      && x'.text.Keys == x.text.Keys + {n} && x'.tree.Keys == x.tree.Keys + {c.base + c.prefix}
      && x'.tree == Grow(x.tree, c) && (forall m :: Rooted(x, m) ==> Rooted(x', m))
      && Routes(x') == if c.route.handlers == [] then Routes(x) else Routes(x)[c.base + c.prefix := c.route]
  {
    GrowFresh(x.tree, c);
    GrowTable(x.tree, c);
    hide Agrees, CellOk, Ok, CanGrow, WithKid, NewFields, Table;
  }

  lemma GrowCoupled(x: Index, c: Cell, n: Node, before: map<Node, Fields>, after: map<Node, Fields>)
    requires MayGrow(x, c, n) && Describes(x, before)
    requires var q := x.at[c.base];
      after == before[q := WithKid(x.views[c.base], c.kind, n)][n := NewFields(c, q)]
    ensures Describes(GrowIndex(x, c, n), after)
  {
    hide Agrees, CellOk, WithKid, NewFields, Ok;
    GrowFresh(x.tree, c);
    var x' := GrowIndex(x, c, n);
    forall r | r in x'.at ensures x'.at[r] in after && after[x'.at[r]] == x'.views[r] {
      if r in x.at && r != c.base { assert x.at[r] != x.at[c.base]; }
    }
  }

  method Attach(q: Node, t: Kind, ghost base: string, prefix: string, route: Route, ghost nodes: set<Node>) returns (n: Node)
    requires prefix != [] && q in nodes
    modifies q`children, q`paramChild, q`anyChild
    ensures fresh(n)
    ensures Snapshot(nodes + {n}) ==
      old(Snapshot(nodes))[q := WithKid(old(q.View()), t, n)][n := NewFields(Cell(t, base, prefix, route), q)]
  {
    n := new Node(t, prefix, q, [], route, null, null);
    match t {
      case StaticKind => q.children := q.children + [n];
      case ParamKind => q.paramChild := n;
      case AnyKind => q.anyChild := n;
    }
    assert forall m :: m in nodes && m != q ==> m.View() == old(m.View());
  }

  // ---------- giving a node a route ----------

  method Fill(n: Node, route: Route, ghost nodes: set<Node>)
    requires n in nodes
    modifies n`handlers, n`ppath, n`pnames
    ensures Snapshot(nodes) == old(Snapshot(nodes))[n := old(n.View()).(route := route)]
  {
    n.handlers, n.ppath, n.pnames := route.handlers, route.ppath, route.pnames;
    assert forall m :: m in nodes && m != n ==> m.View() == old(m.View());
  }

  ghost function AssignIndex(x: Index, s: string, route: Route): Index
    requires s in x.tree && s in x.views
  {
    x.(tree := Assign(x.tree, s, route), views := x.views[s := x.views[s].(route := route)])
  }

  lemma AssignAgrees(x: Index, s: string, route: Route, r: string)
    requires Good(x) && s in x.tree && r in x.tree
    ensures var x' := AssignIndex(x, s, route); r in x'.views && Agrees(x', r, x'.views[r])
  {
    var x' := AssignIndex(x, s, route);
    var v := x.views[r];
    assert Agrees(x, r, v);
    forall k | k in x'.tree && k in x'.at && x'.tree[k].base == r ensures HasKid(x', x'.views[r], k) {
      assert HasKid(x, v, k);
    }
  }

  lemma AssignGood(x: Index, s: string, route: Route)
    requires Good(x) && s in x.tree && route.handlers != []
    ensures forall m :: Rooted(x, m) ==> Rooted(AssignIndex(x, s, route), m)
    ensures Good(AssignIndex(x, s, route)) && Routes(AssignIndex(x, s, route)) == Routes(x)[s := route]
  {
    hide Agrees, CellOk;
    AssignOk(x.tree, s, route);
    AssignTable(x.tree, s, route);
    var x' := AssignIndex(x, s, route);
    forall r | r in x'.tree ensures Agrees(x', r, x'.views[r]) { AssignAgrees(x, s, route, r); }
  }

  lemma AssignCoupled(x: Index, s: string, route: Route, before: map<Node, Fields>)
    requires Good(x) && s in x.tree && Describes(x, before)
    ensures Describes(AssignIndex(x, s, route), before[x.at[s] := x.views[s].(route := route)])
  {
    hide Agrees, CellOk, Ok, Assign;
    var after := before[x.at[s] := x.views[s].(route := route)];
    var x' := AssignIndex(x, s, route);
    forall r | r in x'.at ensures x'.at[r] in after && after[x'.at[r]] == x'.views[r] {
      if r != s { assert x.at[r] != x.at[s]; }
    }
  }

  lemma Passed(base: string, search: string, k: nat)
    requires k <= |search|
    ensures base + search == base + search[..k] + search[k..]
  {
  }

  lemma TableWithin(t: Tree)
    ensures Table(t).Keys <= t.Keys
  {
  }

  // ---------- the first node ----------

  ghost function Planted(path: string, route: Route, root: Node): Index
    requires path != []
  {
    Index(map[path := Cell(StaticKind, [], path, route)], map[path := root], map[root := path],
          map[path := Fields(StaticKind, path[0], path, null, [], route, null, null)])
  }

  /** Fills the zero node. */
  method FillRoot(root: Node, path: string, route: Route)
    requires path != [] && root.View() == Fields(StaticKind, '\0', [], null, [], NO_ROUTE, null, null)
    requires route.handlers == [] ==> route == NO_ROUTE
    modifies root
    ensures Snapshot({root}) == map[root := Planted(path, route, root).views[path]]
  {
    root.mark, root.prefix := path[0], path;
    if |route.handlers| != 0 {
      root.kind, root.handlers, root.ppath, root.pnames := StaticKind, route.handlers, route.ppath, route.pnames;
    }
  }

  lemma PlantGood(path: string, route: Route, root: Node)
    requires path != [] && path[0] == '/' && NoWild(path)
    ensures var x := Planted(path, route, root);
      && Good(x) && Rooted(x, root) && x.text.Keys == {root} && x.tree == map[path := Cell(StaticKind, [], path, route)]
      && Routes(x) == (if route.handlers == [] then map[] else map[path := route])
      && Describes(x, map[root := x.views[path]])
  {
    var x := Planted(path, route, root);
    assert CellOk(x.tree, path);
    assert Agrees(x, path, x.views[path]);
  }

  method CommonPrefix(a: string, b: string) returns (k: nat)
    ensures k <= |a| && k <= |b| && a[..k] == b[..k]
    ensures k < |a| && k < |b| ==> a[k] != b[k]
  {
    k := 0;
    while k < |a| && k < |b| && a[k] == b[k]
      invariant k <= |a| && k <= |b| && a[..k] == b[..k]
    {
      k := k + 1;
    }
  }

  // ---------- scanning a registered path ----------

  datatype Outcome = Added | InvalidPath | NoHandlers | Duplicate

  method CheckPathValid(path: string) returns (ok: bool)
    ensures ok <==> ValidPath(path)
  {
    if |path| == 0 || path[0] != '/' { return false; }
    var i := 0;
    while i < |path|
      invariant 0 <= i <= |path|
      invariant forall k :: 0 <= k < i && path[k] == PARAM ==> ColonOk(path, k)
      invariant forall k :: 0 <= k < i && path[k] == ANY ==> StarOk(path, k)
    {
      if path[i] == PARAM {
        if i == |path| - 1 || path[i + 1] == '/' { return false; }
        ghost var n := SegmentLength(path[i + 1..]);
        var j := i + 1;
        while j < |path| && path[j] != '/'
          invariant i < j <= i + 1 + n
          invariant forall k :: i < k < j ==> !IsWild(path[k])
        {
          assert path[i + 1..][j - i - 1] == path[j];
          if path[j] == PARAM || path[j] == ANY { return false; }
          j := j + 1;
        }
        assert n < |path[i + 1..]| ==> path[i + 1..][n] == path[i + 1 + n];
      } else if path[i] == ANY {
        if i == |path| - 1 { return false; }
        if i > 0 && path[i - 1] != '/' { return false; }
        var j := i;
        while j < |path|
          invariant i <= j <= |path|
          invariant forall k :: i <= k < j ==> path[k] != '/'
        {
          if path[j] == '/' { return false; }
          j := j + 1;
        }
      }
      i := i + 1;
    }
    return true;
  }

  /** A registered path, scanned up to `done`. The names met so far have been cut out of `path`, whose
      first `i` characters are the shape so far; the tree has a cell behind each wildcard of it. */
  ghost predicate Scanned(t: Tree, pattern: string, path: string, pnames: seq<string>, i: nat, done: nat) {
    && ValidPath(pattern) && done <= |pattern| && i <= |path| && path[i..] == pattern[done..]
    && Shape(pattern) == path[..i] + Shape(pattern[done..])
    && Names(pattern) == pnames + Names(pattern[done..])
    && (i == 0 ==> done == 0) && (i > 0 ==> path[0] == '/')
    && forall k :: 0 <= k < i ==> path[k] != ANY && (path[k] == PARAM ==> path[..k + 1] in t)
  }

  lemma ScanStart(t: Tree, pattern: string)
    requires ValidPath(pattern)
    ensures Scanned(t, pattern, pattern, [], 0, 0)
  {
    assert pattern[0..] == pattern;
  }

  lemma ScanGrow(t: Tree, t': Tree, pattern: string, path: string, pnames: seq<string>, i: nat, done: nat)
    requires Scanned(t, pattern, path, pnames, i, done) && t.Keys <= t'.Keys
    ensures Scanned(t', pattern, path, pnames, i, done)
  {
  }

  /** The static text in front of the scan may be inserted. */
  lemma ScanPrepared(t: Tree, pattern: string, path: string, pnames: seq<string>, i: nat, done: nat)
    requires Scanned(t, pattern, path, pnames, i, done) && (i < |path| ==> IsWild(path[i]))
    ensures 0 < i && Prepared(t, path[..i], StaticKind) && path[..i] <= Shape(pattern)
  {
    assert path[0..] == path && pattern[0..] == pattern;
    forall k | 0 <= k < i && IsWild(path[..i][k]) ensures path[..i][..k + 1] in t {
      assert path[..i][..k + 1] == path[..k + 1];
    }
  }

  lemma ScanStatic(t: Tree, pattern: string, path: string, pnames: seq<string>, i: nat, done: nat)
    requires Scanned(t, pattern, path, pnames, i, done) && i < |path| && !IsWild(path[i])
    ensures done < |pattern| && Scanned(t, pattern, path, pnames, i + 1, done + 1)
  {
    var rest := pattern[done..];
    assert path[i..][0] == path[i] && rest[0] == path[i];
    assert pattern[done + 1..] == rest[1..] && path[i + 1..] == path[i..][1..];
    assert path[..i + 1] == path[..i] + [path[i]];
    if i == 0 { assert rest == pattern; }
  }

  lemma ParamFirst(rest: string, n: nat)
    requires rest != [] && rest[0] == PARAM && n == SegmentLength(rest[1..])
    ensures Shape(rest) == [PARAM] + Shape(rest[1 + n..]) && Names(rest) == [rest[1..1 + n]] + Names(rest[1 + n..])
  {
  }

  /** The text of a parameter whose name ends at `e`. */
  lemma ScanName(rest: string, path: string, i: nat, e: nat)
    requires i < e <= |path| && path[i] == PARAM && rest == path[i..]
    requires (forall k :: i < k < e ==> path[k] != '/') && (e < |path| ==> path[e] == '/')
    ensures Shape(rest) == [PARAM] + Shape(path[e..]) && Names(rest) == [path[i + 1..e]] + Names(path[e..])
    ensures |rest| == |path| - i && rest[e - i..] == path[e..]
  {
    hide Shape, Names, SegmentLength;
    var n, name := e - i - 1, path[i + 1..];
    assert SegmentLength(name) == n by {
      assert forall k :: 0 <= k < n ==> name[k] == path[i + 1 + k];
      SegmentIs(name, n);
    }
    assert rest[0] == PARAM && rest[1..] == name;
    assert rest[1 + n..] == path[e..];
    assert rest[1..1 + n] == path[i + 1..e];
    ParamFirst(rest, n);
  }

  /** Cutting the name out leaves a scanned path, once the parameter has its cell. */
  lemma ScanParam(t: Tree, pattern: string, path: string, pnames: seq<string>, i: nat, done: nat, e: nat)
    requires Scanned(t, pattern, path, pnames, i, done) && i < e <= |path| && path[i] == PARAM && i > 0
    requires (forall k :: i < k < e ==> path[k] != '/') && (e < |path| ==> path[e] == '/') && path[..i + 1] in t
    ensures done + (e - i) <= |pattern|
    ensures Scanned(t, pattern, path[..i + 1] + path[e..], pnames + [path[i + 1..e]], i + 1, done + (e - i))
  {
    hide Shape, Names, ValidPath;
    var path', rest := path[..i + 1] + path[e..], pattern[done..];
    ScanName(rest, path, i, e);
    assert pattern[done + (e - i)..] == rest[e - i..];
    assert path'[i + 1..] == path[e..];
    assert path'[..i + 1] == path[..i] + [PARAM];
    forall k | 0 <= k < i + 1 ensures path'[k] != ANY && (path'[k] == PARAM ==> path'[..k + 1] in t) {
      assert path'[..k + 1] == path[..k + 1];
    }
  }

  lemma ParamRoute(t: Tree, pattern: string, path: string, pnames: seq<string>, i: nat, done: nat, h: Handlers)
    requires Scanned(t, pattern, path, pnames, i, done) && i < |path| && path[i] == PARAM
    requires forall k :: i < k < |path| ==> path[k] != '/'
    ensures RouteOk(path[..i + 1], Route(h, pattern, pnames + [path[i + 1..]]))
  {
    ScanName(pattern[done..], path, i, |path|);
    assert path[i + 1..|path|] == path[i + 1..] && path[|path|..] == [];
    assert path[..i + 1] == path[..i] + [PARAM];
  }

  lemma ParamPrepared(t: Tree, pattern: string, path: string, pnames: seq<string>, i: nat, done: nat)
    requires Scanned(t, pattern, path, pnames, i, done) && 0 < i < |path| && path[i] == PARAM && path[..i] in t
    ensures Prepared(t, path[..i + 1], ParamKind) && path[..i + 1] <= Shape(pattern)
  {
    assert pattern[done..][0] == path[i..][0] == PARAM;
    var q := path[..i + 1];
    assert q[..|q| - 1] == path[..i];
    forall k | 0 <= k < i && IsWild(q[k]) ensures q[..k + 1] in t { assert q[..k + 1] == path[..k + 1]; }
  }

  /** A catch-all ends the scan. */
  lemma ScanAny(t: Tree, pattern: string, path: string, pnames: seq<string>, i: nat, done: nat, h: Handlers)
    requires Scanned(t, pattern, path, pnames, i, done) && 0 < i < |path| && path[i] == ANY && path[..i] in t
    ensures Prepared(t, path[..i + 1], AnyKind) && RouteOk(path[..i + 1], Route(h, pattern, pnames + [path[i + 1..]]))
  {
    var rest := pattern[done..];
    assert rest == path[i..] && rest[0] == ANY && rest[1..] == path[i + 1..];
    var q := path[..i + 1];
    assert q == path[..i] + [ANY] && q[..|q| - 1] == path[..i];
    forall k | 0 <= k < i && IsWild(q[k]) ensures q[..k + 1] in t { assert q[..k + 1] == path[..k + 1]; }
  }

  lemma ScanEnd(t: Tree, pattern: string, path: string, pnames: seq<string>, done: nat, h: Handlers)
    requires Scanned(t, pattern, path, pnames, |path|, done)
    ensures path != [] && RouteOk(path, Route(h, pattern, pnames))
  {
    assert path[|path|..] == [] && path[..|path|] == path;
    assert pattern[done..] == [];
  }

  // ---------- captured parameters ----------

  /** The parameters of a request: a slice over a buffer that outlives it. */
  class ParamList {
    var buf: array<Param>
    var len: nat

    constructor (capacity: nat)
      ensures len == 0 && buf.Length == capacity && fresh(buf)
    {
      buf, len := new Param[capacity](_ => Param("", "")), 0;
    }

    /** Reslices the list by one and stores a value in the new slot, whose key is stale. */
    method Push(value: string, ghost values: seq<string>)
      requires Holds(this, values) && len < buf.Length
      modifies this`len, buf
      ensures Holds(this, values + [value])
    {
      len := len + 1;
      buf[len - 1] := buf[len - 1].(value := value);
    }

    /** The value of the first parameter with the name. */
    method Get(name: string) returns (value: string, ok: bool)
      requires len <= buf.Length
      ensures value == ValueOf(buf[..len], name)
      ensures ok <==> exists k :: 0 <= k < len && buf[k].key == name
    {
      for i := 0 to len
        invariant forall k :: 0 <= k < i ==> buf[k].key != name
      {
        if buf[i].key == name {
          FirstCounts(buf[..len], i);
          return buf[i].value, true;
        }
      }
      NoneCounts(buf[..len], name);
      return "", false;
    }
  }

  /** The values captured so far are in the first slots. */
  ghost predicate Holds(params: ParamList, values: seq<string>)
    reads params, params.buf
  {
    params.len == |values| <= params.buf.Length && forall i :: 0 <= i < |values| ==> params.buf[i].value == values[i]
  }

  /** What a lookup in a table delivers, or that there is nothing to deliver. */
  ghost predicate AnswerIn(table: map<string, Route>, path: string, params: ParamList, handlers: Handlers, fullPath: string, best: string)
    reads params, params.buf
  {
    if handlers == [] then
      (forall s :: s in table ==> !Matches(s, path)) && params.len == 0 && fullPath == []
    else
      && BestIn(table, path, best) && best in table
      && handlers == table[best].handlers && fullPath == table[best].ppath
      && params.len <= params.buf.Length && Pairs(params.buf[..params.len], table[best].pnames, Captures(best, path))
      && Substitute(fullPath, Captures(best, path)) == path
  }

  /** Where the loop of a lookup continues. */
  datatype Label = Enter | ParamLabel | AnyLabel

  ghost function RankOf(pc: Label): nat { match pc case Enter => 0 case ParamLabel => 1 case AnyLabel => 2 }

  /** How one move of a lookup ends. */
  datatype Step = Found | NotFound | Panics | Go(pc: Label)

  /** The index is a well-formed tree of valid routes, and these are the fields of its nodes. */
  ghost predicate Sound(x: Index, views: map<Node, Fields>) { Good(x) && TableOk(Routes(x)) && Describes(x, views) }

  lemma GrowSound(x: Index, c: Cell, n: Node, before: map<Node, Fields>, after: map<Node, Fields>)
    requires Sound(x, before) && MayGrow(x, c, n) && (c.route.handlers != [] ==> RouteOk(c.base + c.prefix, c.route))
    requires var q := x.at[c.base]; after == before[q := WithKid(x.views[c.base], c.kind, n)][n := NewFields(c, q)]
    ensures var x' := GrowIndex(x, c, n);
      && Sound(x', after) && x'.text.Keys == x.text.Keys + {n} && x'.tree.Keys == x.tree.Keys + {c.base + c.prefix}
      && x'.tree == Grow(x.tree, c) && x'.tree != map[] && (forall m :: Rooted(x, m) ==> Rooted(x', m))
      && Routes(x') == if c.route.handlers == [] then Routes(x) else Routes(x)[c.base + c.prefix := c.route]
  {
    hide Good, Describes, TableOk, RouteOk, WithKid, NewFields, GrowIndex, Rooted, Grow, Table, CanGrow;
    if c.route.handlers != [] { TableOkSet(Routes(x), c.base + c.prefix, c.route); }
    GrowCoupled(x, c, n, before, after);
    GrowGood(x, c, n);
    GrowFacts(x, c, n);
  }

  lemma SplitSound(x: Index, s: string, k: nat, n: Node, before: map<Node, Fields>, after: map<Node, Fields>)
    requires Sound(x, before) && CanSplit(x, s, k, n) && Cuts(x.at[s], x.views[s], k, n, before, after)
    ensures var x' := SplitIndex(x, s, k, n);
      && Sound(x', after) && x'.text.Keys == x.text.Keys + {n} && x'.tree.Keys == x.tree.Keys + {Upper(x, s, k)}
      && x'.tree == Split(x.tree, s, k) && x'.tree != map[] && (forall m :: Rooted(x, m) ==> Rooted(x', m))
      && Routes(x') == Routes(x) && x.at[s] in x'.text && x'.text[x.at[s]] == Upper(x, s, k)
  {
    SplitGood(x, s, k, n);
    hide Good, Describes, TableOk, Rooted, Table, Split, Cuts, SplitIndex, Upper;
    forall m | Rooted(x, m) ensures Rooted(SplitIndex(x, s, k, n), m) { SplitRooted(x, s, k, n, m); }
    SplitCoupled(x, s, k, n, before, after);
  }

  lemma AssignSound(x: Index, s: string, route: Route, before: map<Node, Fields>, after: map<Node, Fields>)
    requires Sound(x, before) && s in x.tree && route.handlers != [] && RouteOk(s, route)
    requires after == before[x.at[s] := x.views[s].(route := route)]
    ensures var x' := AssignIndex(x, s, route);
      && Sound(x', after) && x'.text == x.text && x'.tree.Keys == x.tree.Keys
      && (forall m :: Rooted(x, m) ==> Rooted(x', m)) && Routes(x') == Routes(x)[s := route]
  {
    hide Good, Describes, TableOk, RouteOk, Table;
    TableOkSet(Routes(x), s, route);
    AssignGood(x, s, route);
    AssignCoupled(x, s, route, before);
  }

  class Router {
    var root: Node
    ghost var x: Index

    ghost predicate RootOk()
      reads this, root
    {
      if x.tree == map[] then
        root.View() == Fields(StaticKind, '\0', [], null, [], NO_ROUTE, null, null)
      else
        Rooted(x, root)
    }

    ghost predicate Valid()
      reads this, root, x.text.Keys
    {
      RootOk() && Sound(x, Snapshot(x.text.Keys))
    }

    constructor ()
      ensures Valid() && x.tree == map[] && fresh(root) && x.text == map[]
    {
      root := new Node.Zero();
      x := Index(map[], map[], map[], map[]);
    }

    /** What the invariant says about one node. */
    lemma Known(n: Node)
      requires Valid() && n in x.text
      ensures var s := x.text[n];
        && s in x.tree && s in x.at && x.at[s] == n && s in x.views && n.View() == x.views[s]
        && s == x.tree[s].base + n.prefix
        && Ok(x.tree) && CellOk(x.tree, s) && Agrees(x, s, n.View())
    {
      var s := x.text[n];
      assert Snapshot(x.text.Keys)[n] == n.View();
      assert Agrees(x, s, x.views[s]) && CellOk(x.tree, s);
    }

    // ---------- registration ----------

    /** Cuts a node of the tree in two after `k` characters. */
    method SplitNode(cn: Node, k: nat)
      requires Valid() && CanCut(cn, k)
      modifies this`x, x.text.Keys
      ensures Valid() && cn in x.text && x.text[cn] == old(Upper(x, x.text[cn], k))
      ensures x.tree == Split(old(x.tree), old(x.text[cn]), k) && Routes(x) == old(Routes(x))
      ensures x.tree.Keys == old(x.tree.Keys) + {x.text[cn]}
      ensures fresh(x.text.Keys - old(x.text.Keys))
    {
      hide Sound, SplitIndex, Split, Table, Under, Cuts, Snapshot, Agrees, CellOk, Upper, Rooted;
      ghost var s, x0, before := x.text[cn], x, Snapshot(x.text.Keys);
      Known(cn);
      IsGood();
      Below(x, s);
      assert Rooted(x, root);
      hide Good;
      var n := Cut(cn, k, x.text.Keys);
      ghost var nodes := x0.text.Keys + {n};
      SplitSound(x0, s, k, n, before, Snapshot(nodes));
      Become(SplitIndex(x0, s, k, n), nodes);
    }

    /** The nodes are now what another index says. */
    ghost method Become(x': Index, nodes: set<Node>)
      requires x'.tree != map[] && Rooted(x', root) && x'.text.Keys == nodes && Sound(x', Snapshot(nodes))
      modifies this`x
      ensures x == x' && Valid()
    {
      hide Sound, Snapshot, Rooted;
      x := x';
    }

    lemma IsGood()
      requires Valid()
      ensures Good(x)
    {
    }

    ghost predicate CanCut(cn: Node, k: nat)
      reads this, cn
    {
      cn in x.text && x.text[cn] in x.tree && cn.prefix == x.tree[x.text[cn]].prefix && 0 < k < |cn.prefix|
    }

    /** Hangs a new node under `q`. */
    method AddChild(q: Node, t: Kind, prefix: string, route: Route)
      requires Valid() && q in x.text && CanGrow(x.tree, Cell(t, x.text[q], prefix, route)) && prefix != []
      requires route.handlers != [] ==> RouteOk(x.text[q] + prefix, route)
      modifies this`x, x.text.Keys
      ensures Valid() && x.tree == Grow(old(x.tree), Cell(t, old(x.text[q]), prefix, route))
      ensures x.tree.Keys == old(x.tree.Keys) + {old(x.text[q]) + prefix}
      ensures Routes(x) == if route.handlers == [] then old(Routes(x)) else old(Routes(x))[old(x.text[q]) + prefix := route]
      ensures fresh(x.text.Keys - old(x.text.Keys))
    {
      hide Sound, Good, CanGrow, GrowIndex, Grow, Table, RouteOk, Agrees, CellOk, Snapshot, WithKid, NewFields, Rooted;
      ghost var c, x0, before := Cell(t, x.text[q], prefix, route), x, Snapshot(x.text.Keys);
      Known(q);
      IsGood();
      assert x.at[c.base] == q && x.views[c.base] == q.View() && Rooted(x, root);
      var n := Attach(q, t, c.base, prefix, route, x.text.Keys);
      ghost var nodes := x0.text.Keys + {n};
      GrowSound(x0, c, n, before, Snapshot(nodes));
      Become(GrowIndex(x0, c, n), nodes);
    }

    /** Gives an existing node a route. */
    method SetRoute(n: Node, route: Route)
      requires Valid() && n in x.text && route.handlers != [] && RouteOk(x.text[n], route)
      modifies this`x, n`handlers, n`ppath, n`pnames
      ensures Valid() && x.text == old(x.text) && x.tree.Keys == old(x.tree.Keys)
      ensures Routes(x) == old(Routes(x))[x.text[n] := route]
    {
      hide Sound, Good, Table, RouteOk, Agrees, CellOk, Snapshot, Rooted, AssignIndex;
      Known(n);
      IsGood();
      ghost var s, x0, before := x.text[n], x, Snapshot(x.text.Keys);
      Fill(n, route, x.text.Keys);
      AssignSound(x0, s, route, before, Snapshot(x0.text.Keys));
      x := AssignIndex(x0, s, route);
    }

    lemma Begin(path: string, t: Kind)
      requires Valid() && Prepared(x.tree, path, t)
      ensures path != [] && path[0] == '/'
      ensures x.tree == map[] ==> NoWild(path) && t == StaticKind && root.prefix == []
      ensures x.tree != map[] ==>
        && root in x.text && x.text[root] in x.tree
        && Standing(x.tree, path, x.text[root], path) && root.prefix == x.tree[x.text[root]].prefix
    {
      if x.tree != map[] { Known(root); }
    }

    /** The child the walk takes next, or none. */
    method ChildFor(cn: Node, l: char) returns (c: Node?)
      requires Valid() && cn in x.text
      ensures c == null ==> NoChild(x.tree, x.text[cn], l)
      ensures c != null ==>
        && c in x.text && x.text[c] in x.tree
        && var k := x.tree[x.text[c]]; k.base == x.text[cn] && k.prefix != [] && k.prefix[0] == l
    {
      hide Sound, NoChild;
      c := cn.FindChildWithLabel(l);
      if c != null {
        HasLink(cn, c, l);
      } else {
        NoLink(cn, l);
      }
    }

    lemma HasLink(cn: Node, c: Node, l: char)
      requires Valid() && cn in x.text
      requires (c in cn.children && c.mark == l) || (l == PARAM && c == cn.paramChild) || (l == ANY && c == cn.anyChild)
      ensures c in x.text && x.text[c] in x.tree
      ensures var k := x.tree[x.text[c]]; k.base == x.text[cn] && k.prefix != [] && k.prefix[0] == l
    {
      Known(cn);
      Known(c);
    }

    lemma NoLink(cn: Node, l: char)
      requires Valid() && cn in x.text && (forall d :: d in cn.children ==> d.mark != l)
      requires (l == PARAM ==> cn.paramChild == null) && (l == ANY ==> cn.anyChild == null)
      ensures NoChild(x.tree, x.text[cn], l)
    {
      Known(cn);
      forall r | r in x.tree && x.tree[r].base == x.text[cn] && x.tree[r].prefix != [] ensures x.tree[r].prefix[0] != l {
        assert HasKid(x, cn.View(), r);
        Known(x.at[r]);
      }
    }

    /** The first text registered turns the zero node into the root. */
    method Plant(path: string, route: Route)
      requires Valid() && x.tree == map[] && path != [] && path[0] == '/' && NoWild(path)
      requires if route.handlers == [] then route == NO_ROUTE else RouteOk(path, route)
      modifies this`x, root
      ensures Valid() && x.tree == map[path := Cell(StaticKind, [], path, route)] && x.text.Keys == {root}
      ensures old(Routes(x)) == map[] && Routes(x) == if route.handlers == [] then map[] else map[path := route]
    {
      hide Good, RouteOk, TableOk, NoWild, Table, Describes, Agrees, CellOk;
      assert Routes(x) == map[] by { TableWithin(x.tree); }
      if route.handlers != [] { TableOkSet(map[], path, route); }
      PlantGood(path, route, root);
      hide Snapshot;
      FillRoot(root, path, route);
      x := Planted(path, route, root);
    }

    /** The inserted text ends inside, or leaves, the prefix of `cn` after `k` characters. */
    method InsertInside(path: string, t: Kind, route: Route, cn: Node, search: string, k: nat)
      requires Valid() && CanCut(cn, k) && Standing(x.tree, path, x.text[cn], search) && Prepared(x.tree, path, t)
      requires k <= |search| && search[..k] == cn.prefix[..k] && (k < |search| ==> search[k] != cn.prefix[k])
      requires if route.handlers == [] then t == StaticKind ==> route == NO_ROUTE else RouteOk(path, route)
      modifies this`x, x.text.Keys
      ensures Valid() && fresh(x.text.Keys - old(x.text.Keys))
      ensures old(x.tree.Keys) <= x.tree.Keys && path in x.tree && path !in old(Routes(x))
      ensures forall s :: s in x.tree ==> s in old(x.tree) || s <= path
      ensures Routes(x) == if route.handlers == [] then old(Routes(x)) else old(Routes(x))[path := route]
    {
      hide Sound, Good, RouteOk, Describes, Snapshot, CanGrow, Split, Grow, Agrees, CellOk, Prepared, Table;
      ghost var s := x.text[cn];
      Known(cn);
      if k == |search| {
        EndsInside(x.tree, path, t, s, search);
        TableWithin(x.tree);
        assert path == Upper(x, s, k);
        SplitNode(cn, k);
        if |route.handlers| != 0 { SetRoute(cn, route); }
      } else {
        BranchesInside(x.tree, path, t, s, search, k);
        TableWithin(x.tree);
        BranchGrows(x.tree, path, s, k, Cell(t, Upper(x, s, k), search[k..], route));
        assert path == Upper(x, s, k) + search[k..];
        assert Upper(x, s, k) <= path;
        SplitNode(cn, k);
        AddChild(cn, t, search[k..], route);
      }
    }

    /** The inserted text is longer than the prefix of `cn` and no child continues it. */
    method InsertBelow(path: string, t: Kind, route: Route, cn: Node, search: string)
      requires Valid() && cn in x.text && Standing(x.tree, path, x.text[cn], search) && Prepared(x.tree, path, t)
      requires cn.prefix == x.tree[x.text[cn]].prefix < search && NoChild(x.tree, x.text[cn], search[|cn.prefix|])
      requires if route.handlers == [] then t != AnyKind else RouteOk(path, route)
      modifies this`x, x.text.Keys
      ensures Valid() && fresh(x.text.Keys - old(x.text.Keys))
      ensures old(x.tree.Keys) <= x.tree.Keys && path in x.tree && path !in old(Routes(x))
      ensures forall s :: s in x.tree ==> s in old(x.tree) || s <= path
      ensures Routes(x) == if route.handlers == [] then old(Routes(x)) else old(Routes(x))[path := route]
    {
      hide Sound, Good, RouteOk, Describes, Snapshot, CanGrow, Split, Grow, Agrees, CellOk, Prepared, Table;
      ghost var s := x.text[cn];
      var rest := search[|cn.prefix|..];
      Known(cn);
      TableWithin(x.tree);
      Passed(x.tree[s].base, search, |cn.prefix|);
      Continues(x.tree, path, s, Cell(t, s, rest, route));
      AddChild(cn, t, rest, route);
    }

    /** A node for the inserted text exists. */
    method InsertHere(path: string, route: Route, cn: Node) returns (ok: bool)
      requires Valid() && cn in x.text && x.text[cn] == path && (route.handlers != [] ==> RouteOk(path, route))
      modifies this`x, x.text.Keys
      ensures Valid() && x.text == old(x.text) && x.tree.Keys == old(x.tree.Keys) && path in x.tree
      ensures ok == !(route.handlers != [] && path in old(Routes(x)))
      ensures Routes(x) == if ok && route.handlers != [] then old(Routes(x))[path := route] else old(Routes(x))
    {
      Known(cn);
      if |cn.handlers| != 0 && |route.handlers| != 0 { return false; }
      if |route.handlers| != 0 { SetRoute(cn, route); }
      return true;
    }

    /** Walks down to the node at which the inserted text `path` ends, branches off or goes on. */
    method Walk(path: string, ghost t: Kind) returns (cn: Node, search: string, lcp: nat)
      requires Valid() && Prepared(x.tree, path, t)
      ensures lcp == 0 ==> x.tree == map[] && NoWild(path) && path != [] && path[0] == '/' && t == StaticKind
      ensures lcp > 0 ==>
        && cn in x.text && Standing(x.tree, path, x.text[cn], search) && cn.prefix == x.tree[x.text[cn]].prefix
        && lcp <= |search| && lcp <= |cn.prefix| && search[..lcp] == cn.prefix[..lcp]
        && (lcp < |cn.prefix| && lcp < |search| ==> search[lcp] != cn.prefix[lcp])
        && (lcp == |cn.prefix| < |search| ==> NoChild(x.tree, x.text[cn], search[lcp]))
    {
      hide Sound, Good, RouteOk, Describes, Snapshot, Table, Agrees, CellOk, Prepared, Ok, NoWild;
      cn, search := root, path;
      Begin(path, t);
      while true
        invariant if x.tree == map[] then cn == root && search == path
                  else cn in x.text && x.text[cn] in x.tree && Standing(x.tree, path, x.text[cn], search)
                       && cn.prefix == x.tree[x.text[cn]].prefix
        decreases |search|
      {
        lcp := CommonPrefix(search, cn.prefix);
        if lcp == 0 || lcp < |cn.prefix| || lcp == |search| { return; }
        var c := ChildFor(cn, search[lcp]);
        if c == null { return; }
        Descend(path, cn, search, c);
        search := search[lcp..];
        cn := c;
      }
    }

    /** Inserts one text. `ok` is false where the router refuses a second route of the same shape. */
    method Insert(path: string, h: Handlers, t: Kind, ppath: string, pnames: seq<string>) returns (ok: bool)
      requires Valid() && Prepared(x.tree, path, t)
      requires h != [] ==> RouteOk(path, Route(h, ppath, pnames))
      requires h == [] ==> t != AnyKind && (t == StaticKind ==> ppath == [] && pnames == [])
      modifies this`x, root, x.text.Keys
      ensures Valid() && fresh(x.text.Keys - old(x.text.Keys) - {root})
      ensures old(x.tree.Keys) <= x.tree.Keys && path in x.tree
      ensures forall s :: s in x.tree ==> s in old(x.tree) || s <= path
      ensures ok == !(h != [] && path in old(Routes(x)))
      ensures Routes(x) == if ok && h != [] then old(Routes(x))[path := Route(h, ppath, pnames)] else old(Routes(x))
    {
      hide Sound, Good, RouteOk, Describes, Snapshot, Table, Agrees, CellOk, Prepared, Ok, NoWild, NoChild;
      var route := Route(h, ppath, pnames);
      var cn, search, lcp := Walk(path, t);
      if lcp == 0 {
        Plant(path, route);
        return true;
      } else if lcp < |cn.prefix| {
        InsertInside(path, t, route, cn, search, lcp);
        return true;
      } else if lcp < |search| {
        InsertBelow(path, t, route, cn, search);
        return true;
      } else {
        Here(path, cn, search);
        ok := InsertHere(path, route, cn);
      }
    }

    lemma Descend(path: string, cn: Node, search: string, c: Node)
      requires Valid() && cn in x.text && c in x.text && Standing(x.tree, path, x.text[cn], search)
      requires cn.prefix == x.tree[x.text[cn]].prefix < search
      requires x.text[c] in x.tree
      requires var k := x.tree[x.text[c]]; k.base == x.text[cn] && k.prefix != [] && k.prefix[0] == search[|cn.prefix|]
      ensures Standing(x.tree, path, x.text[c], search[|cn.prefix|..]) && c.prefix == x.tree[x.text[c]].prefix
    {
      NextCell(x.tree, path, x.text[cn], search, x.text[c]);
      Known(c);
    }

    lemma Here(path: string, cn: Node, search: string)
      requires Valid() && cn in x.text && Standing(x.tree, path, x.text[cn], search) && search == cn.prefix
      ensures x.text[cn] == path
    {
      Known(cn);
    }

    /** Handles a parameter at `i`: inserts the static text before it and the parameter itself, which
        takes the route when it ends the path, and cuts its name out of the path. */
    method AddParam(pattern: string, path: string, pnames: seq<string>, i: nat, h: Handlers, ghost done: nat)
      returns (path': string, pnames': seq<string>, ok: bool, ghost done': nat)
      requires Valid() && Scanned(x.tree, pattern, path, pnames, i, done) && i < |path| && path[i] == PARAM && h != []
      modifies this`x, root, x.text.Keys
      ensures Valid() && fresh(x.text.Keys - old(x.text.Keys) - {root})
      ensures i < |path'| && done < done' <= |pattern|
      ensures forall s :: s in x.tree ==> s in old(x.tree) || s <= Shape(pattern)
      ensures |path'| == i + 1 ==>
        && ok == (Shape(pattern) !in old(Routes(x)))
        && Routes(x) == if ok then old(Routes(x))[Shape(pattern) := Route(h, pattern, Names(pattern))] else old(Routes(x))
      ensures |path'| > i + 1 ==>
        Routes(x) == old(Routes(x)) && Scanned(x.tree, pattern, path', pnames', i + 1, done') && path'[i + 1] == '/'
    {
      hide Sound, Good, Describes, Snapshot, Table, Agrees, CellOk, Ok, Prepared, Scanned, ValidPath, Shape, Names;
      var j, e := i + 1, i;
      ScanPrepared(x.tree, pattern, path, pnames, i, done);
      ghost var t0 := x.tree;
      ok := Insert(path[..i], [], StaticKind, [], []);
      ScanGrow(t0, x.tree, pattern, path, pnames, i, done);
      while e < |path| && path[e] != '/'
        invariant i <= e <= |path|
        invariant forall k :: i < k < e ==> path[k] != '/'
      {
        e := e + 1;
      }
      pnames' := pnames + [path[j..e]];
      path' := path[..j] + path[e..];
      assert path'[..j] == path[..j];
      ParamPrepared(x.tree, pattern, path, pnames, i, done);
      assert path'[..j] <= Shape(pattern);
      ghost var t1 := x.tree;
      if j == |path'| {
        assert path[j..e] == path[j..];
        ParamRoute(x.tree, pattern, path, pnames, i, done, h);
        ok := Insert(path'[..j], h, ParamKind, pattern, pnames');
      } else {
        ok := Insert(path'[..j], [], ParamKind, [], pnames');
      }
      ScanGrow(t1, x.tree, pattern, path, pnames, i, done);
      ScanParam(x.tree, pattern, path, pnames, i, done, e);
      done' := done + (e - i);
    }

    /** Handles a catch-all at `i`, which ends the path. */
    method AddAny(pattern: string, path: string, pnames: seq<string>, i: nat, h: Handlers, ghost done: nat) returns (ok: bool)
      requires Valid() && Scanned(x.tree, pattern, path, pnames, i, done) && i < |path| && path[i] == ANY && h != []
      modifies this`x, root, x.text.Keys
      ensures Valid() && fresh(x.text.Keys - old(x.text.Keys) - {root})
      ensures forall s :: s in x.tree ==> s in old(x.tree) || s <= Shape(pattern)
      ensures ok == (Shape(pattern) !in old(Routes(x)))
      ensures Routes(x) == if ok then old(Routes(x))[Shape(pattern) := Route(h, pattern, Names(pattern))] else old(Routes(x))
    {
      hide Sound, Good, Describes, Snapshot, Table, Agrees, CellOk, Ok, Prepared, Scanned, ValidPath, Shape, Names;
      ScanPrepared(x.tree, pattern, path, pnames, i, done);
      ghost var t0 := x.tree;
      ok := Insert(path[..i], [], StaticKind, [], []);
      ScanGrow(t0, x.tree, pattern, path, pnames, i, done);
      ScanAny(x.tree, pattern, path, pnames, i, done, h);
      ok := Insert(path[..i + 1], h, AnyKind, pattern, pnames + [path[i + 1..]]);
    }

    /** Registers a route. The panics of the source are outcomes; a refused second route of the same
        shape leaves the table as it was. */
    method AddRoute(pattern: string, h: Handlers) returns (r: Outcome)
      requires Valid()
      modifies this`x, root, x.text.Keys
      ensures Valid() && fresh(x.text.Keys - old(x.text.Keys) - {root})
      ensures forall s :: s in x.tree ==> s in old(x.tree) || (ValidPath(pattern) && s <= Shape(pattern))
      ensures r == InvalidPath <==> !ValidPath(pattern)
      ensures r == NoHandlers <==> ValidPath(pattern) && h == []
      ensures r == Duplicate <==> ValidPath(pattern) && h != [] && Shape(pattern) in old(Routes(x))
      ensures Routes(x) == if r == Added then old(Routes(x))[Shape(pattern) := Route(h, pattern, Names(pattern))] else old(Routes(x))
    {
      hide Sound, Good, Describes, Snapshot, Table, Agrees, CellOk, Ok, Prepared, Scanned, ValidPath, Shape, Names;
      var valid := CheckPathValid(pattern);
      if !valid { return InvalidPath; }
      if |h| == 0 { return NoHandlers; }
      var path, pnames, i, ok := pattern, [], 0, true;
      ghost var done := 0;
      ScanStart(x.tree, pattern);
      while i < |path|
        invariant Valid() && fresh(x.text.Keys - old(x.text.Keys) - {root})
        invariant Routes(x) == old(Routes(x))
        invariant forall s :: s in x.tree ==> s in old(x.tree) || s <= Shape(pattern)
        invariant i <= |path| && done <= |pattern| && Scanned(x.tree, pattern, path, pnames, i, done)
        decreases |pattern| - done
      {
        if path[i] == PARAM {
          path, pnames, ok, done := AddParam(pattern, path, pnames, i, h, done);
          i := i + 1;
          if i == |path| { return if ok then Added else Duplicate; }
        } else if path[i] == ANY {
          ok := AddAny(pattern, path, pnames, i, h, done);
          return if ok then Added else Duplicate;
        }
        ScanStatic(x.tree, pattern, path, pnames, i, done);
        i := i + 1;
        done := done + 1;
      }
      assert path[..i] == path;
      ScanPrepared(x.tree, pattern, path, pnames, i, done);
      ScanEnd(x.tree, pattern, path, pnames, done, h);
      ok := Insert(path, h, StaticKind, pattern, pnames);
      return if ok then Added else Duplicate;
    }

    // ---------- lookup ----------

    lemma NoParamLink(n: Node)
      requires Valid() && n in x.text && n.paramChild == null
      ensures NoChild(x.tree, x.text[n], PARAM)
    {
      Known(n);
      var s := x.text[n];
      forall r | r in x.tree && x.tree[r].base == s && x.tree[r].prefix != [] ensures x.tree[r].prefix[0] != PARAM {
        assert HasKid(x, n.View(), r) && CellOk(x.tree, r);
      }
    }

    lemma NoAnyLink(n: Node)
      requires Valid() && n in x.text && n.anyChild == null
      ensures NoChild(x.tree, x.text[n], ANY)
    {
      Known(n);
      var s := x.text[n];
      forall r | r in x.tree && x.tree[r].base == s && x.tree[r].prefix != [] ensures x.tree[r].prefix[0] != ANY {
        assert HasKid(x, n.View(), r) && CellOk(x.tree, r);
      }
    }

    lemma NoStaticLink(n: Node, l: char)
      requires Valid() && n in x.text && forall d :: d in n.children ==> d.mark != l
      ensures NoStaticChild(x.tree, x.text[n], l)
    {
      Known(n);
      var s := x.text[n];
      forall r | r in x.tree && x.tree[r].base == s && x.tree[r].kind == StaticKind && x.tree[r].prefix != []
        ensures x.tree[r].prefix[0] != l
      {
        assert HasKid(x, n.View(), r);
        Known(x.at[r]);
      }
    }

    lemma StaticLink(n: Node, c: Node)
      requires Valid() && n in x.text && c in n.children
      ensures c in x.text && x.text[c] in x.tree
      ensures var k := x.tree[x.text[c]]; k.base == x.text[n] && k.kind == StaticKind && k.prefix != [] && k.prefix[0] == c.mark
    {
      Known(n);
      Known(c);
    }

    /** What a node knows about its route, and how many values its path captures. */
    lemma RouteHere(n: Node)
      requires Valid() && n in x.text && n.handlers != []
      ensures var s := x.text[n];
        && s in Routes(x) && s in Table(x.tree) && Routes(x)[s] == Route(n.handlers, n.ppath, n.pnames)
        && |n.pnames| == Wildcards(s)
    {
      Known(n);
      NamesCount(n.ppath);
    }

    lemma Unrouted(n: Node)
      requires Valid() && n in x.text && n.handlers == []
      ensures x.text[n] !in Table(x.tree)
    {
      Known(n);
    }

    /** The links and fields of a node a lookup may use. */
    lemma Links(n: Node)
      requires Valid() && n in x.text
      ensures var s := x.text[n];
        && s in x.tree && Ok(x.tree) && n.kind == x.tree[s].kind && n.prefix == x.tree[s].prefix && n.prefix != []
        && (if x.tree[s].base == [] then n.parent == null else n.parent != null && n.parent in x.text && x.text[n.parent] == x.tree[s].base)
        && (n.paramChild != null ==> n.paramChild in x.text && var c := x.text[n.paramChild];
             c in x.tree && x.tree[c].base == s && x.tree[c].kind == ParamKind)
        && (n.anyChild != null ==> n.anyChild in x.text && n.anyChild.handlers != [] && var c := x.text[n.anyChild];
             c in x.tree && x.tree[c].base == s && x.tree[c].kind == AnyKind)
    {
      Known(n);
      if n.parent != null { Known(n.parent); }
      if n.paramChild != null { Known(n.paramChild); }
      if n.anyChild != null { Known(n.anyChild); }
    }

    ghost predicate Fits(params: ParamList)
      reads this, params`buf
    {
      forall s :: s in x.tree ==> Wildcards(s) <= params.buf.Length
    }

    /** Writes the names of the route next to the captured values. */
    method BindNames(params: ParamList, names: seq<string>, ghost values: seq<string>)
      requires params.len == |names| == |values| <= params.buf.Length
      requires forall i :: 0 <= i < |values| ==> params.buf[i].value == values[i]
      modifies params.buf
      ensures Pairs(params.buf[..params.len], names, values)
    {
      var i := 0;
      while i < |names|
        invariant 0 <= i <= |names|
        invariant forall j :: 0 <= j < |values| ==> params.buf[j].value == values[j]
        invariant forall j :: 0 <= j < i ==> params.buf[j].key == names[j]
      {
        params.buf[i] := params.buf[i].(key := names[i]);
        i := i + 1;
      }
    }

    /** A lookup stands at the node `cn`, about to do what the label `pc` says. In an empty tree it
        stands at the zero node. */
    ghost predicate At(path: string, cn: Node, base: string, pc: Label, search: string, index: nat, values: seq<string>)
      reads this
    {
      if x.tree == map[] then
        cn == root && search == path && index == 0 && values == []
      else
        && cn in x.text && x.text[cn] in x.tree
        && Position(x.tree, path, x.text[cn], base, RankOf(pc), search, index, values)
        && base == if pc == Enter && x.tree[x.text[cn]].kind == StaticKind then x.tree[x.text[cn]].base else x.text[cn]
    }

    ghost function Steps(cn: Node, pc: Label): nat
      reads this
    {
      if cn in x.text then |Ahead(x.tree, x.text[cn], RankOf(pc))| else 0
    }

    ghost function Depth(cn: Node): nat
      reads this
    {
      if cn in x.text then |x.text[cn]| else 0
    }

    /** One move of a lookup never leads back: its measure, and the nodes it has entered. */
    ghost predicate Onward(path: string, cn: Node, pc: Label, cn': Node, pc': Label)
      reads this
    {
      var a, a' := Steps(cn, pc), Steps(cn', pc');
      && (a' < a || (a' == a && (Depth(cn') < Depth(cn) || (Depth(cn') == Depth(cn) && RankOf(pc) < RankOf(pc')))))
      && (cn in x.text ==> cn' in x.text && Moved(path, cn, pc, cn', pc'))
    }

    ghost predicate Moved(path: string, cn: Node, pc: Label, cn': Node, pc': Label)
      requires cn in x.text && cn' in x.text
      reads this
    {
      && Forward(x.tree, path, x.text[cn], RankOf(pc), x.text[cn'], RankOf(pc'))
      && Adjacent(x.tree, x.text[cn], x.text[cn'], RankOf(pc'))
    }

    /** The lookup has gone the way `walk`, which ends where it stands now; an empty tree has no way to go. */
    ghost predicate Walked(path: string, walk: seq<Spot>, cn: Node, base: string, pc: Label, search: string, index: nat, values: seq<string>)
      reads this
    {
      if x.tree == map[] then walk == []
      else
        && cn in x.text && Lookup(x.tree, path, walk)
        && walk[|walk| - 1] == Spot(x.text[cn], RankOf(pc), base, search, index, values)
    }

    lemma WalkStart(path: string, slots: nat) returns (walk: seq<Spot>)
      requires Valid() && At(path, root, [], Enter, path, 0, [])
      ensures Walked(path, walk, root, [], Enter, path, 0, []) && Within(walk, slots)
    {
      walk := [];
      if x.tree != map[] {
        Known(root);
        walk := [Spot(x.text[root], 0, [], path, 0, [])];
        hide Position;
      }
    }

    lemma WalkMove(path: string, params: ParamList, walk: seq<Spot>, cn: Node, base: string, pc: Label, search: string, index: nat, values: seq<string>,
                   cn': Node, base': string, pc': Label, search': string, index': nat, values': seq<string>) returns (walk': seq<Spot>)
      requires Walked(path, walk, cn, base, pc, search, index, values) && At(path, cn', base', pc', search', index', values')
      requires Onward(path, cn, pc, cn', pc')
      requires Holds(params, values') && Within(walk, params.buf.Length)
      ensures Walked(path, walk', cn', base', pc', search', index', values') && Within(walk', params.buf.Length)
    {
      walk' := [];
      if x.tree != map[] {
        hide Lookup, Position, Forward, Adjacent;
        var b := Spot(x.text[cn'], RankOf(pc'), base', search', index', values');
        WalkOn(x.tree, path, walk, b);
        walk' := walk + [b];
      }
    }

    /** What the way of a lookup says about its outcome. */
    ghost predicate Trace(path: string, walk: seq<Spot>, slots: nat, panics: bool, handlers: Handlers, best: string)
      reads this
    {
      if x.tree == map[] then walk == [] && !panics else Ends(x.tree, path, walk, slots, panics, handlers != [], best)
    }

    ghost predicate NoRoute(path: string)
      reads this
    {
      forall s :: s in Routes(x) ==> !Matches(s, path)
    }

    lemma EmptyHasNone(path: string)
      requires Valid() && x.tree == map[]
      ensures NoRoute(path) && root !in x.text && root.View() == Fields(StaticKind, '\0', [], null, [], NO_ROUTE, null, null)
    {
    }

    /** The lookup has nowhere left to go back to. */
    ghost predicate Rootward(path: string, cn: Node, pc: Label)
      reads this
    {
      x.tree != map[] ==>
        && cn in x.text && x.text[cn] in x.tree && x.tree[x.text[cn]].base == []
        && ((pc == Enter && !(x.text[cn] <= path)) || (pc == AnyLabel && NoChild(x.tree, x.text[cn], ANY)))
    }

    /** The lookup has no slot for the value of the wildcard it is about to enter. */
    ghost predicate Stuck(params: ParamList, cn: Node, pc: Label, search: string, values: seq<string>)
      reads this, params
    {
      cn in x.text && Full(x.tree, Spot(x.text[cn], RankOf(pc), [], search, 0, values), params.buf.Length)
    }

    lemma WildText(c: Node)
      requires Valid() && c in x.text && x.text[c] in x.tree
      ensures var k := x.tree[x.text[c]];
        && (k.kind == ParamKind ==> k.base + [PARAM] == x.text[c])
        && (k.kind == AnyKind ==> k.base + [ANY] == x.text[c])
    {
      assert CellOk(x.tree, x.text[c]);
    }

    /** Enters a node: consumes its static prefix, accepts its route, or picks a static child. */
    method EnterNode(path: string, cn: Node, search: string, index: nat, ghost base: string, ghost values: seq<string>)
      returns (step: Step, cn': Node, search': string, index': nat, ghost base': string)
      requires Valid() && At(path, cn, base, Enter, search, index, values)
      ensures step != Panics
      ensures step == NotFound ==> NoRoute(path) && values == [] && Rootward(path, cn, Enter)
      ensures step == Found ==> cn' == cn && Accepted(path, cn', values)
      ensures step.Go? ==> At(path, cn', base', step.pc, search', index', values) && Onward(path, cn, Enter, cn', step.pc)
    {
      hide Sound, Good, Describes, Snapshot, RouteOk, Pending, Ahead, Rest, Captures, Wildcards, Agrees, CellOk, Table, Position, Ok, Best, Matches, NoStaticChild;
      cn', search', index', base' := cn, search, index, base;
      if x.tree == map[] { EmptyHasNone(path); } else { Links(cn); }
      if cn.kind == StaticKind {
        if |search| >= |cn.prefix| && cn.prefix == search[..|cn.prefix|] {
          if x.tree != map[] { PosMatch(x.tree, path, x.text[cn], base, search, index, values); }
          search', index' := search[|cn.prefix|..], index + |cn.prefix|;
        } else {
          PosMismatch(x.tree, path, x.text[cn], base, search, index, values);
          if cn.parent == null { return NotFound, cn, search, index, base; }
          return Go(ParamLabel), cn.parent, search, index, base;
        }
      }
      base' := if x.tree == map[] then [] else x.text[cn];
      if |search'| == 0 && |cn.handlers| != 0 {
        AcceptHere(path, cn, search', index', values);
        return Found, cn, search', index', base';
      }
      if |search'| != 0 {
        var child := cn.FindChild(search'[0]);
        if child != null {
          StaticLink(cn, child);
          PosStatic(x.tree, path, x.text[cn], search', index', values, x.text[child]);
          return Go(Enter), child, search', index', base';
        }
      }
      step := Go(ParamLabel);
      if x.tree != map[] {
        if |search'| != 0 { NoStaticLink(cn, search'[0]); } else { Unrouted(cn); }
        PosNoStatic(x.tree, path, x.text[cn], search', index', values);
      }
    }

    /** The lookup may stop at `n` with these values. */
    ghost predicate Accepted(path: string, n: Node, values: seq<string>)
      reads this, n
    {
      n in x.text && n.handlers != [] && Best(x.tree, path, x.text[n]) && values == Captures(x.text[n], path)
    }

    lemma AcceptHere(path: string, n: Node, search: string, index: nat, values: seq<string>)
      requires Valid() && n in x.text && n.handlers != [] && search == []
      requires Position(x.tree, path, x.text[n], x.text[n], 0, search, index, values)
      ensures Accepted(path, n, values)
    {
      RouteHere(n);
      Arrived(x.tree, path, x.text[n]);
    }

    /** Tries the parameter child, which captures up to the next slash. */
    method TryParam(path: string, params: ParamList, cn: Node, search: string, index: nat, ghost base: string, ghost values: seq<string>)
      returns (step: Step, cn': Node, search': string, index': nat, ghost base': string, ghost values': seq<string>)
      requires Valid() && At(path, cn, base, ParamLabel, search, index, values) && Holds(params, values)
      modifies params`len, params.buf
      ensures step.Go? || (step == Panics && !Fits(params) && Stuck(params, cn, ParamLabel, search, values))
      ensures step.Go? ==> At(path, cn', base', step.pc, search', index', values') && Onward(path, cn, ParamLabel, cn', step.pc)
      ensures step.Go? ==> Holds(params, values')
    {
      hide Sound, Good, Describes, Snapshot, RouteOk, Pending, Ahead, Rest, Captures, Agrees, CellOk, Table, Position, Ok, Wildcards, NoChild;
      cn', search', index', base', values', step := cn, search, index, base, values, Go(AnyLabel);
      if x.tree == map[] { EmptyHasNone(path); } else { Links(cn); }
      if |search| != 0 && cn.paramChild != null {
        var i := 0;
        while i < |search| && search[i] != '/'
          invariant 0 <= i <= |search|
          invariant forall k :: 0 <= k < i ==> search[k] != '/'
        {
          i := i + 1;
        }
        SegmentIs(search, i);
        PosParam(x.tree, path, x.text[cn], search, index, values, x.text[cn.paramChild]);
        Room(path, params, cn.paramChild, search[i..], index + i, values + [search[..i]], 0);
        if params.len == params.buf.Length {
          WildText(cn.paramChild);
          return Panics, cn, search, index, base, values;
        }
        params.Push(search[..i], values);
        return Go(Enter), cn.paramChild, search[i..], index + i, x.text[cn.paramChild], values + [search[..i]];
      }
      if x.tree != map[] {
        if |search| != 0 { NoParamLink(cn); }
        PosNoParam(x.tree, path, x.text[cn], search, index, values);
      }
    }

    lemma Room(path: string, params: ParamList, n: Node, search: string, index: nat, values: seq<string>, k: nat)
      requires n in x.text && Position(x.tree, path, x.text[n], x.text[n], k, search, index, values)
      ensures Fits(params) ==> |values| <= params.buf.Length
    {
    }

    ghost predicate CatchAll(cn: Node, c: Node)
      reads this
    {
      cn in x.text && c in x.text && x.text[c] in x.tree && x.tree[x.text[c]].base == x.text[cn] && x.tree[x.text[c]].kind == AnyKind
    }

    /** Tries the catch-all child, which takes the rest of the path. */
    method TryAny(path: string, params: ParamList, cn: Node, search: string, index: nat, ghost base: string, ghost values: seq<string>)
      returns (found: Node?, panics: bool, ghost values': seq<string>)
      requires Valid() && At(path, cn, base, AnyLabel, search, index, values) && Holds(params, values)
      modifies params`len, params.buf
      ensures panics ==> !Fits(params) && Stuck(params, cn, AnyLabel, search, values)
      ensures !panics ==> Holds(params, values')
      ensures !panics && found != null ==> Accepted(path, found, values') && CatchAll(cn, found)
      ensures !panics && found == null ==> values' == values && (x.tree != map[] ==> NoChild(x.tree, x.text[cn], ANY))
    {
      hide Sound, Good, Describes, Snapshot, RouteOk, Pending, Ahead, Rest, Captures, Agrees, CellOk, Table, Ok, Wildcards, NoChild, Best;
      if x.tree == map[] { EmptyHasNone(path); } else { Links(cn); }
      values', panics := values, false;
      if cn.anyChild != null {
        found := cn.anyChild;
        RouteHere(found);
        AcceptAny(path, cn, search, index, values, found);
        assert |found.pnames| - 1 == |values|;
        if params.len == params.buf.Length {
          WildText(found);
          return found, true, values;
        }
        params.Push(search, values);
        values' := values + [search];
        return;
      }
      if x.tree != map[] { NoAnyLink(cn); }
      return null, false, values;
    }

    lemma AcceptAny(path: string, n: Node, search: string, index: nat, values: seq<string>, c: Node)
      requires Valid() && n in x.text && c in x.text && c.handlers != [] && x.text[c] in x.tree
      requires x.tree[x.text[c]].base == x.text[n] && x.tree[x.text[c]].kind == AnyKind
      requires Position(x.tree, path, x.text[n], x.text[n], 2, search, index, values)
      ensures Accepted(path, c, values + [search]) && Wildcards(x.text[c]) == |values| + 1
    {
      Known(c);
      ArrivedAny(x.tree, path, x.text[c]);
      WildcardsAppend(x.text[n], [ANY]);
    }

    /** Goes back to the parent and restores the search to what it was there. */
    method Backtrack(path: string, params: ParamList, cn: Node, search: string, index: nat, ghost base: string, ghost values: seq<string>)
      returns (step: Step, cn': Node, search': string, index': nat, ghost base': string, ghost values': seq<string>)
      requires Valid() && At(path, cn, base, AnyLabel, search, index, values) && Holds(params, values)
      requires x.tree != map[] ==> NoChild(x.tree, x.text[cn], ANY)
      modifies params`len
      ensures step != Found && step != Panics
      ensures step == NotFound ==> NoRoute(path) && Holds(params, []) && Rootward(path, cn, AnyLabel)
      ensures step.Go? ==> At(path, cn', base', step.pc, search', index', values') && Onward(path, cn, AnyLabel, cn', step.pc)
      ensures step.Go? ==> Holds(params, values')
    {
      hide Sound, Good, Describes, Snapshot, RouteOk, Pending, Ahead, Rest, Captures, Agrees, CellOk, Table, Position, Ok, Wildcards, NoChild, Matches;
      cn', search', index', base', values' := cn, search, index, base, values;
      if x.tree == map[] {
        EmptyHasNone(path);
      } else {
        Links(cn);
        PosLeave(x.tree, path, x.text[cn], search, index, values);
      }
      if cn.kind == StaticKind {
        index' := index - |cn.prefix|;
      } else {
        index' := index - |params.buf[params.len - 1].value|;
        params.len := params.len - 1;
        values' := values[..|values| - 1];
      }
      if cn.parent == null { return NotFound, cn, search, index', base, values'; }
      search' := path[index'..];
      return Go(if cn.kind == StaticKind then ParamLabel else AnyLabel), cn.parent, search', index', x.text[cn.parent], values';
    }

    lemma Finished(path: string, n: Node, values: seq<string>)
      requires Valid() && Accepted(path, n, values)
      ensures var s := x.text[n];
        && s in Routes(x) && Routes(x)[s] == Route(n.handlers, n.ppath, n.pnames)
        && |n.pnames| == |values| && values == Captures(s, path)
        && Substitute(n.ppath, values) == path
    {
      RouteHere(n);
      CapturesCount(x.text[n], path);
      SubstituteCaptures(n.ppath, path);
    }

    lemma BeginFind(path: string, params: ParamList)
      requires Valid() && params.len == 0
      ensures At(path, root, [], Enter, path, 0, []) && Holds(params, [])
    {
      if x.tree != map[] { PosStart(x.tree, path, x.text[root]); }
    }

    ghost predicate Answer(path: string, params: ParamList, handlers: Handlers, fullPath: string, best: string)
      reads this, params, params.buf
    {
      AnswerIn(Routes(x), path, params, handlers, fullPath, best)
    }

    method Deliver(path: string, params: ParamList, n: Node, ghost values: seq<string>)
      returns (handlers: Handlers, fullPath: string, ghost best: string)
      requires Valid() && Accepted(path, n, values) && Holds(params, values)
      modifies params.buf
      ensures handlers != [] && Answer(path, params, handlers, fullPath, best) && n in x.text && best == x.text[n]
    {
      hide Sound, Good, Describes, Snapshot, Captures, Wildcards, Substitute, RouteOk;
      best := x.text[n];
      Finished(path, n, values);
      BindNames(params, n.pnames, values);
      return n.handlers, n.ppath, best;
    }

    /**
     * Looks up a request path. The labels of the source's loop are the values of `pc`; `walk` is the way
     * the lookup goes. Reslicing the parameters past their capacity panics.
     */
    method Find(path: string, params: ParamList)
      returns (handlers: Handlers, fullPath: string, panics: bool, ghost best: string, ghost walk: seq<Spot>)
      requires Valid() && params.len == 0
      modifies params`len, params.buf
      ensures panics ==> !Fits(params)
      ensures !panics ==> Answer(path, params, handlers, fullPath, best)
      ensures Trace(path, walk, params.buf.Length, panics, handlers, best)
    {
      hide Valid, Fits, At, Forward, Ahead, NoChild, NoRoute, Accepted, Best, Answer, Holds, Walked, Trace, Onward, Rootward, Stuck, Within, CatchAll;
      var cn: Node, search, index, pc := root, path, 0, Enter;
      ghost var base, values := [], [];
      handlers, fullPath, panics, best := [], [], false, [];
      BeginFind(path, params);
      walk := WalkStart(path, params.buf.Length);
      while true
        invariant Valid() && Holds(params, values) && Within(walk, params.buf.Length)
        invariant At(path, cn, base, pc, search, index, values) && Walked(path, walk, cn, base, pc, search, index, values)
        decreases Steps(cn, pc), Depth(cn), 3 - RankOf(pc)
      {
        var step: Step;
        ghost var cn0, pc0, base0, search0, index0, values0 := cn, pc, base, search, index, values;
        if pc == Enter {
          step, cn, search, index, base := EnterNode(path, cn, search, index, base, values);
          if step == NotFound {
            NoAnswer(path, params, values);
            TraceNone(path, params.buf.Length, walk, cn0, base0, pc0, search0, index0, values0);
            return;
          }
          if step == Found {
            handlers, fullPath, best := Deliver(path, params, cn, values);
            TraceHere(path, params.buf.Length, walk, cn, base0, search0, index0, values0, handlers, best);
            return;
          }
        } else if pc == ParamLabel {
          step, cn, search, index, base, values := TryParam(path, params, cn, search, index, base, values);
          if step == Panics {
            TracePanic(path, params, walk, cn0, base0, pc0, search0, index0, values0);
            return [], [], true, [], walk;
          }
        } else {
          var found;
          found, panics, values := TryAny(path, params, cn, search, index, base, values);
          if panics {
            TracePanic(path, params, walk, cn0, base0, pc0, search0, index0, values0);
            return;
          }
          if found != null {
            handlers, fullPath, best := Deliver(path, params, found, values);
            TraceAny(path, params.buf.Length, walk, cn, base0, search0, index0, values0, found, handlers);
            return;
          }
          step, cn, search, index, base, values := Backtrack(path, params, cn, search, index, base, values);
          if step == NotFound {
            NoAnswer(path, params, []);
            TraceNone(path, params.buf.Length, walk, cn0, base0, pc0, search0, index0, values0);
            return;
          }
        }
        pc := step.pc;
        Descends(path, cn0, pc0, cn, pc);
        walk := WalkMove(path, params, walk, cn0, base0, pc0, search0, index0, values0, cn, base, pc, search, index, values);
      }
    }

    /** Every move makes progress. */
    lemma Descends(path: string, cn: Node, pc: Label, cn': Node, pc': Label)
      requires Onward(path, cn, pc, cn', pc')
      ensures var a, a' := Steps(cn, pc), Steps(cn', pc');
        a' < a || (a' == a && (Depth(cn') < Depth(cn) || (Depth(cn') == Depth(cn) && RankOf(pc) < RankOf(pc'))))
    {
    }

    lemma TraceNone(path: string, slots: nat, walk: seq<Spot>, cn: Node, base: string, pc: Label, search: string, index: nat, values: seq<string>)
      requires Walked(path, walk, cn, base, pc, search, index, values) && Rootward(path, cn, pc) && Within(walk, slots)
      ensures Trace(path, walk, slots, false, [], [])
    {
      hide Lookup;
    }

    lemma TracePanic(path: string, params: ParamList, walk: seq<Spot>, cn: Node, base: string, pc: Label, search: string, index: nat, values: seq<string>)
      requires Walked(path, walk, cn, base, pc, search, index, values) && Within(walk, params.buf.Length)
      requires Valid() && Stuck(params, cn, pc, search, values)
      ensures Trace(path, walk, params.buf.Length, true, [], [])
    {
      hide Lookup;
    }

    lemma TraceHere(path: string, slots: nat, walk: seq<Spot>, cn: Node, base: string, search: string, index: nat, values: seq<string>, handlers: Handlers, best: string)
      requires Walked(path, walk, cn, base, Enter, search, index, values) && cn in x.text && x.text[cn] == best && handlers != [] && Within(walk, slots)
      ensures Trace(path, walk, slots, false, handlers, best)
    {
    }

    lemma TraceAny(path: string, slots: nat, walk: seq<Spot>, cn: Node, base: string, search: string, index: nat, values: seq<string>, c: Node, handlers: Handlers)
      requires Walked(path, walk, cn, base, AnyLabel, search, index, values) && CatchAll(cn, c) && handlers != [] && Within(walk, slots)
      ensures c in x.text && Trace(path, walk, slots, false, handlers, x.text[c])
    {
      if x.tree != map[] { assert walk != []; }
    }

    lemma NoAnswer(path: string, params: ParamList, values: seq<string>)
      requires NoRoute(path) && Holds(params, values) && values == []
      ensures Answer(path, params, [], [], [])
    {
    }
  }
}
