/** The expression parser on linked nodes: parsing hangs each new operator above what was read so far,
    and `SortPriority` rotates parent, left and right links until operator precedence is restored. */
module ExprTree {
  import opened Precedence
  import opened Grammar
  import opened Options

  ghost predicate ChainOk(c: Chain) {
    |c.os| == |c.ops| + 1 && forall i :: 0 <= i < |c.os| ==> !c.os[i].Bin?
  }

  // ---------- what the parser reads ----------

  /** Reads operands and operators up to the first place where no operator follows. What is left
      after that is ignored, a missing operand between two operators is a syntax error. The trees of
      sub-expressions are given by `ParseTree`. */
  function Read(toks: seq<Token>): (c: Option<Chain>)
    ensures c.Some? ==> ChainOk(c.value)
    decreases toks, 1
  {
    if toks == [] then Some(Chain([Absent], []))
    else
      match toks[0]
      case Oper(_) => None
      case Atom(a) => Extend(Leaf(a), toks)
      case Paren(sub) =>
        var t := ParseTree(sub);
        if t.None? then None else Extend(Group(t.value), toks)
  }

  /** The operand is read; goes on behind the operator that follows it, if any. */
  function Extend(operand: Ast, toks: seq<Token>): (c: Option<Chain>)
    requires toks != [] && !operand.Bin?
    ensures c.Some? ==> ChainOk(c.value)
    decreases toks, 0
  {
    if |toks| == 1 || !toks[1].Oper? then Some(Chain([operand], []))
    else
      var c := Read(toks[2..]);
      if c.None? then None else Some(Chain([operand] + c.value.os, [toks[1].op] + c.value.ops))
  }

  /** The tree parsing builds: every operator has all that came before as its left operand. */
  function ParseTree(toks: seq<Token>): Option<Ast>
    decreases toks, 2
  {
    var c := Read(toks);
    if c.None? then None else Some(LeanAll(c.value))
  }

  function LeanAll(c: Chain): Ast
    requires |c.os| == |c.ops| + 1
  {
    if c.ops == [] then c.os[0] else Lean(c.os[0], c.ops[0], Chain(c.os[1..], c.ops[1..]))
  }

  /** Continues a left-leaning tree `acc`, whose next operator is `op`. */
  function Lean(acc: Ast, op: Op, c: Chain): Ast
    requires |c.os| == |c.ops| + 1
    decreases |c.ops|
  {
    var t := Bin(op, acc, c.os[0]);
    if c.ops == [] then t else Lean(t, c.ops[0], Chain(c.os[1..], c.ops[1..]))
  }

  // ---------- parsing then sorting gives the reference ----------

  function OrderedAll(os: seq<Ast>): (r: seq<Ast>)
    requires forall i :: 0 <= i < |os| ==> !os[i].Bin?
    ensures |r| == |os|
  {
    if os == [] then [] else Ordered(os[0]) + OrderedAll(os[1..])
  }

  lemma {:induction false} LeanTight(acc: Ast, op: Op, c: Chain)
    requires ChainOk(c) && Tight(acc) && forall i :: 0 <= i < |c.os| ==> Tight(c.os[i])
    ensures Tight(Lean(acc, op, c))
    decreases |c.ops|
  {
    assert Ops(c.os[0]) == [];
    if c.ops != [] { LeanTight(Bin(op, acc, c.os[0]), c.ops[0], Chain(c.os[1..], c.ops[1..])); }
  }

  lemma {:induction false} LeanOps(acc: Ast, op: Op, c: Chain)
    requires ChainOk(c)
    ensures Ops(Lean(acc, op, c)) == Ops(acc) + [op] + c.ops
    decreases |c.ops|
  {
    var t := Bin(op, acc, c.os[0]);
    assert Ops(t) == Ops(acc) + [op] + [];
    if c.ops != [] {
      LeanOps(t, c.ops[0], Chain(c.os[1..], c.ops[1..]));
      assert (Ops(acc) + [op] + []) + [c.ops[0]] + c.ops[1..] == Ops(acc) + [op] + c.ops;
    }
  }

  lemma OrderedParts(os: seq<Ast>, op: Op, acc: Ast)
    requires os != [] && forall i :: 0 <= i < |os| ==> !os[i].Bin?
    ensures OrderedAll(os) == Ordered(os[0]) + OrderedAll(os[1..]) && Ordered(Bin(op, acc, os[0])) == Ordered(acc) + Ordered(os[0])
  {
    hide Build;
  }

  lemma {:induction false} LeanOrdered(acc: Ast, op: Op, c: Chain)
    requires ChainOk(c)
    ensures Ordered(Lean(acc, op, c)) == Ordered(acc) + OrderedAll(c.os)
    decreases |c.ops|
  {
    hide Build;
    var o, rest := c.os[0], c.os[1..];
    var t := Bin(op, acc, o);
    var x, y, z := Ordered(acc), Ordered(o), OrderedAll(rest);
    OrderedParts(c.os, op, acc);
    if c.ops == [] {
      assert rest == [];
      assert Lean(acc, op, c) == t && z == [];
    } else {
      var d := Chain(rest, c.ops[1..]);
      assert Lean(acc, op, c) == Lean(t, c.ops[0], d);
      hide Ordered, OrderedAll, Lean;
      LeanOrdered(t, c.ops[0], d);
      assert (x + y) + z == x + (y + z);
    }
  }

  lemma {:induction false} LeanAllKeeps(c: Chain)
    requires ChainOk(c) && forall i :: 0 <= i < |c.os| ==> Tight(c.os[i])
    ensures Tight(LeanAll(c)) && Ops(LeanAll(c)) == c.ops && Ordered(LeanAll(c)) == OrderedAll(c.os)
  {
    var o, rest := c.os[0], c.os[1..];
    assert OrderedAll(c.os) == Ordered(o) + OrderedAll(rest);
    if c.ops == [] {
      assert rest == [];
    } else {
      var d := Chain(rest, c.ops[1..]);
      LeanTight(o, c.ops[0], d);
      LeanOps(o, c.ops[0], d);
      LeanOrdered(o, c.ops[0], d);
      assert [] + [c.ops[0]] + c.ops[1..] == c.ops;
    }
  }

  /** The operands read for the two trees differ only in the order inside groups. */
  lemma {:induction false} ReadAgrees(toks: seq<Token>)
    ensures Read(toks).None? <==> RefRead(toks).None?
    ensures Read(toks).Some? ==>
      var c, d := Read(toks).value, RefRead(toks).value;
      c.ops == d.ops && OrderedAll(c.os) == d.os && forall i :: 0 <= i < |c.os| ==> Tight(c.os[i])
    decreases toks, 1
  {
    if toks == [] {
      assert OrderedAll([Absent]) == Ordered(Absent) + OrderedAll([]);
    } else {
      match toks[0]
      case Oper(_) =>
      case Atom(a) => ExtendAgrees(Leaf(a), Leaf(a), toks);
      case Paren(sub) =>
        ParseAgrees(sub);
        if ParseTree(sub).Some? {
          ExtendAgrees(Group(ParseTree(sub).value), Group(RefTree(sub).value), toks);
        }
    }
  }

  lemma {:induction false} ExtendAgrees(a: Ast, b: Ast, toks: seq<Token>)
    requires toks != [] && !a.Bin? && Tight(a) && Ordered(a) == [b]
    ensures Extend(a, toks).None? <==> RefExtend(b, toks).None?
    ensures Extend(a, toks).Some? ==>
      var c, d := Extend(a, toks).value, RefExtend(b, toks).value;
      c.ops == d.ops && OrderedAll(c.os) == d.os && forall i :: 0 <= i < |c.os| ==> Tight(c.os[i])
    decreases toks, 0
  {
    if |toks| == 1 || !toks[1].Oper? {
      assert [a][1..] == [];
      assert OrderedAll([a]) == Ordered(a) + [];
    } else {
      ReadAgrees(toks[2..]);
      if Read(toks[2..]).Some? {
        var os := Read(toks[2..]).value.os;
        assert ([a] + os)[1..] == os;
      }
    }
  }

  lemma {:induction false} ParseAgrees(toks: seq<Token>)
    ensures ParseTree(toks).None? <==> RefTree(toks).None?
    ensures ParseTree(toks).Some? ==> Tight(ParseTree(toks).value) && Reference(ParseTree(toks).value) == RefTree(toks).value
    decreases toks, 2
  {
    ReadAgrees(toks);
    if Read(toks).Some? { LeanAllKeeps(Read(toks).value); }
  }

  /** Parsing and then sorting fails exactly when the grammar has no tree for the tokens, and otherwise gives the one it has. */
  lemma ParseThenSort(toks: seq<Token>)
    ensures ParseTree(toks).None? <==> forall t :: !IsTree(t, toks)
    ensures ParseTree(toks).Some? ==> forall t :: IsTree(t, toks) <==> Sort(ParseTree(toks).value) == t
  {
    ParseAgrees(toks);
    hide IsTree, RefTree;
    forall t ensures IsTree(t, toks) <==> RefTree(toks) == Some(t) { ReferenceIsGrammar(toks, t); }
    if ParseTree(toks).Some? {
      SortIsReference(ParseTree(toks).value);
      assert IsTree(RefTree(toks).value, toks);
    }
  }

  // ---------- linked nodes ----------

  datatype Tag = GroupTag | AtomTag(id: nat) | OpTag(op: Op)

  class ExprNode {
    const tag: Tag
    var parent: ExprNode?
    var left: ExprNode?
    var right: ExprNode?

    constructor (tag: Tag)
      ensures this.tag == tag && parent == null && left == null && right == null
    {
      this.tag, parent, left, right := tag, null, null, null;
    }
  }

  /** A tree that remembers its nodes. */
  datatype Linked = Nil | Node(n: ExprNode, left: Linked, right: Linked)

  ghost function Root(g: Linked): ExprNode? { if g.Nil? then null else g.n }

  ghost function Nodes(g: Linked): set<ExprNode> {
    if g.Nil? then {} else {g.n} + Nodes(g.left) + Nodes(g.right)
  }

  /** No node occurs twice; groups have one operand and atoms none. */
  ghost predicate Proper(g: Linked) {
    g.Node? ==>
      && Proper(g.left) && Proper(g.right)
      && g.n !in Nodes(g.left) && g.n !in Nodes(g.right) && Nodes(g.left) !! Nodes(g.right)
      && (!g.n.tag.OpTag? ==> g.left.Nil?) && (g.n.tag.AtomTag? ==> g.right.Nil?)
  }

  /** The parent and child links of all nodes agree with the tree. */
  ghost predicate Links(g: Linked, p: ExprNode?)
    reads Nodes(g)
  {
    g.Node? ==>
      && g.n.parent == p && g.n.left == Root(g.left) && g.n.right == Root(g.right)
      && Links(g.left, g.n) && Links(g.right, g.n)
  }

  lemma LinksParts(g: Linked, p: ExprNode?)
    requires g.Node?
    ensures Links(g, p) <==>
      && g.n.parent == p && g.n.left == Root(g.left) && g.n.right == Root(g.right)
      && Links(g.left, g.n) && Links(g.right, g.n)
  {
  }

  /** What a proper tree is made of. */
  lemma Parts(g: Linked)
    requires g.Node?
    ensures Nodes(g) == {g.n} + Nodes(g.left) + Nodes(g.right)
    ensures Proper(g) <==>
      && Proper(g.left) && Proper(g.right)
      && g.n !in Nodes(g.left) && g.n !in Nodes(g.right) && Nodes(g.left) !! Nodes(g.right)
      && (!g.n.tag.OpTag? ==> g.left.Nil?) && (g.n.tag.AtomTag? ==> g.right.Nil?)
  {
  }

  ghost function Value(g: Linked): Ast {
    if g.Nil? then Absent
    else
      match g.n.tag
      case OpTag(op) => Bin(op, Value(g.left), Value(g.right))
      case GroupTag => Group(Value(g.right))
      case AtomTag(a) => Leaf(a)
  }

  method GetPriority(e: ExprNode?) returns (p: nat)
    ensures p == if e != null && e.tag.OpTag? then Priority(e.tag.op) else 7
  {
    if e == null { return 7; }
    match e.tag
    case OpTag(op) => return Priority(op);
    case _ => return 7;
  }

  ghost function Rotated(g: Linked): Linked
    requires g.Node? && g.left.Node?
  {
    Node(g.left.n, g.left.left, Node(g.n, g.left.right, g.right))
  }

  lemma RotatedProper(g: Linked)
    requires Proper(g) && g.Node? && g.n.tag.OpTag? && g.left.Node? && g.left.n.tag.OpTag?
    ensures Proper(Rotated(g)) && Nodes(Rotated(g)) == Nodes(g)
  {
    hide Proper, Nodes;
    var u := Node(g.n, g.left.right, g.right);
    Parts(g); Parts(g.left); Parts(u); Parts(Rotated(g));
  }

  /** Hangs the left operand of `e` in its place and `e` below it. */
  method LeftOperandToParent(e: ExprNode, isLeft: bool, ghost g: Linked, ghost nodes: set<ExprNode>)
    requires Nodes(g) == nodes && Proper(g) && g.Node? && g.n == e && e.parent != null && Links(g, e.parent) && e.parent !in Nodes(g)
    requires e.tag.OpTag? && g.left.Node? && g.left.n.tag.OpTag? && g.left.right.Node?
    modifies nodes, e.parent`left, e.parent`right
    ensures Proper(Rotated(g)) && Nodes(Rotated(g)) == nodes && Links(Rotated(g), old(e.parent))
    ensures isLeft ==> old(e.parent).left == g.left.n && old(e.parent).right == old(e.parent.right)
    ensures !isLeft ==> old(e.parent).right == g.left.n && old(e.parent).left == old(e.parent.left)
  {
    hide Proper, Nodes, Links;
    ghost var b, u := g.left.right, Node(e, g.left.right, g.right);
    Parts(g); Parts(g.left); Parts(b); Parts(u);
    RotatedProper(g);
    Parts(Rotated(g));
    var le := e.left;
    var p := e.parent;
    LinksParts(g, p);
    LinksParts(g.left, e);
    LinksParts(b, le);
    if le == null { return; }
    le.parent := p;
    if p != null {
      if isLeft { p.left := le; } else { p.right := le; }
    }
    e.parent := le;
    e.left := le.right;
    le.right.parent := e;
    le.right := e;
    LinksParts(b, e);
    LinksParts(u, le);
    LinksParts(Rotated(g), p);
  }

  /** Operands are missing at most behind the last operator of an expression. */
  ghost predicate Full(t: Ast) {
    match t
    case Absent => false
    case Leaf(_) => true
    case Group(i) => Loose(i)
    case Bin(_, l, r) => Full(l) && Full(r)
  }

  ghost predicate Loose(t: Ast) {
    match t
    case Absent | Leaf(_) => true
    case Group(i) => Loose(i)
    case Bin(_, l, r) => Full(l) && Loose(r)
  }

  lemma {:induction false} FullIsLoose(t: Ast)
    requires Full(t)
    ensures Loose(t)
  {
    if t.Bin? { FullIsLoose(t.right); }
  }

  lemma {:induction false} SubSortFull(t: Ast)
    ensures Loose(t) ==> Loose(SubSort(t).0)
    ensures Full(t) ==> Full(SubSort(t).0)
  {
    match t
    case Group(i) => SubSortFull(i);
    case Bin(_, l, r) => SubSortFull(l); SubSortFull(r);
    case _ =>
  }

  /** One pass over a linked tree: does to the links what `SubSort` does to the tree. */
  method SubSortPriority(e: ExprNode?, isLeft: bool, ghost g: Linked, ghost p: ExprNode, ghost nodes: set<ExprNode>)
    returns (changed: bool, ghost g': Linked)
    requires Nodes(g) == nodes && Proper(g) && Root(g) == e && Links(g, p) && p !in Nodes(g) && Loose(Value(g))
    requires e == if isLeft then p.left else p.right
    modifies nodes, p`left, p`right
    ensures Proper(g') && Nodes(g') == nodes && Links(g', p)
    ensures (Value(g'), changed) == SubSort(Value(g))
    ensures isLeft ==> p.left == Root(g') && p.right == old(p.right)
    ensures !isLeft ==> p.right == Root(g') && p.left == old(p.left)
    decreases g
  {
    hide Proper, Nodes, Links;
    if e == null { return false, g; }
    ghost var l, r;
    var leftChanged, rightChanged;
    Parts(g);
    if e.tag.OpTag? { FullIsLoose(Value(g.left)); }
    LinksParts(g, p);
    leftChanged, l := SubSortPriority(e.left, true, g.left, e, Nodes(g.left));
    rightChanged, r := SubSortPriority(e.right, false, g.right, e, Nodes(g.right));
    g' := Node(e, l, r);
    Parts(g');
    LinksParts(g', p);
    var own := GetPriority(e);
    var below := GetPriority(e.left);
    if own > below {
      SubSortFull(Value(g.left));
      LeftOperandToParent(e, isLeft, g', nodes);
      g' := Rotated(g');
      return true, g';
    }
    return leftChanged || rightChanged, g';
  }

  /** Sorts the expression of a group. */
  method SortPriority(e: ExprNode, ghost g: Linked, ghost nodes: set<ExprNode>) returns (ghost g': Linked)
    requires Nodes(g) == nodes && e.tag == GroupTag && Proper(g) && e.right == Root(g) && Links(g, e) && e !in Nodes(g) && Loose(Value(g))
    modifies nodes, e`left, e`right
    ensures Proper(g') && Nodes(g') == nodes && e.right == Root(g') && Links(g', e) && e.left == old(e.left)
    ensures Value(g') == Sort(Value(g))
  {
    g' := g;
    var changed := true;
    while changed
      invariant Proper(g') && Nodes(g') == nodes && e.right == Root(g') && Links(g', e) && e.left == old(e.left)
      invariant Loose(Value(g')) && Sort(Value(g')) == Sort(Value(g))
      invariant !changed ==> Value(g') == Sort(Value(g'))
      decreases changed, LeftWeight(Value(g'))
    {
      SubSortKeeps(Value(g'));
      SubSortFull(Value(g'));
      changed, g' := SubSortPriority(e.right, false, g', e, nodes);
    }
  }

  // ---------- parsing ----------

  /** Reading leaves out an operand only at the end. */
  lemma {:induction false} LeanLoose(acc: Ast, op: Op, c: Chain)
    requires |c.os| == |c.ops| + 1 && Full(acc) && LastOnly(c.os)
    ensures Loose(Lean(acc, op, c))
    decreases |c.ops|
  {
    if c.ops != [] { LeanLoose(Bin(op, acc, c.os[0]), c.ops[0], Chain(c.os[1..], c.ops[1..])); }
  }

  ghost predicate LastOnly(os: seq<Ast>) {
    os != [] && (forall i :: 0 <= i < |os| - 1 ==> Full(os[i])) && Loose(os[|os| - 1])
  }

  lemma {:induction false} ReadLoose(toks: seq<Token>)
    ensures Read(toks).Some? ==> LastOnly(Read(toks).value.os)
    decreases toks, 1
  {
    if toks != [] {
      match toks[0]
      case Oper(_) =>
      case Atom(a) => ExtendLoose(Leaf(a), toks);
      case Paren(sub) =>
        ParseLoose(sub);
        if ParseTree(sub).Some? { ExtendLoose(Group(ParseTree(sub).value), toks); }
    }
  }

  lemma {:induction false} ExtendLoose(a: Ast, toks: seq<Token>)
    requires toks != [] && !a.Bin? && Full(a)
    ensures Extend(a, toks).Some? ==> LastOnly(Extend(a, toks).value.os)
    decreases toks, 0
  {
    if |toks| == 1 || !toks[1].Oper? { FullIsLoose(a); } else { ReadLoose(toks[2..]); }
  }

  lemma {:induction false} ParseLoose(toks: seq<Token>)
    ensures ParseTree(toks).Some? ==> Loose(ParseTree(toks).value)
    decreases toks, 2
  {
    ReadLoose(toks);
    if Read(toks).Some? {
      var c := Read(toks).value;
      if c.ops != [] {
        assert LastOnly(c.os[1..]);
        LeanLoose(c.os[0], c.ops[0], Chain(c.os[1..], c.ops[1..]));
      }
    }
  }

  /** A tree that hangs under `p` and shares no node with it. */
  ghost predicate Hangs(g: Linked, p: ExprNode)
    reads Nodes(g)
  {
    Proper(g) && Links(g, p) && p !in Nodes(g)
  }

  lemma NilHangs(p: ExprNode)
    ensures Hangs(Nil, p) && Nodes(Nil) == {}
  {
  }

  /** Puts a tree that hangs nowhere under `p`. */
  method SetParent(operand: ExprNode, p: ExprNode, ghost g: Linked, ghost nodes: set<ExprNode>)
    requires g.Node? && Proper(g) && g.n == operand && Links(g, null) && nodes == Nodes(g) && p !in nodes
    modifies operand`parent
    ensures Hangs(g, p)
  {
    hide Proper, Nodes, Links;
    Parts(g);
    LinksParts(g, null);
    operand.parent := p;
    LinksParts(g, p);
  }

  /** The value of an operand token. */
  ghost function OperandValue(tok: Token): Ast {
    match tok
    case Atom(a) => Leaf(a)
    case Paren(sub) => if ParseTree(sub).None? then Absent else Group(ParseTree(sub).value)
    case Oper(_) => Absent
  }

  /** Reads one operand: an atom, or a group with its own expression inside. */
  method ReadOperand(tok: Token, ghost toks: seq<Token>) returns (operand: ExprNode?, ghost g: Linked, ghost ns: set<ExprNode>)
    requires toks != [] && toks[0] == tok
    ensures operand == null <==> tok.Oper? || (tok.Paren? && ParseTree(tok.sub).None?)
    ensures operand != null ==>
      g.Node? && Proper(g) && Root(g) == operand && Links(g, null) && ns == Nodes(g) && operand in ns && fresh(ns) && Value(g) == OperandValue(tok)
    decreases toks, 1
  {
    g, ns := Nil, {};
    match tok
    case Oper(_) => operand := null;
    case Atom(a) =>
      operand := new ExprNode(AtomTag(a));
      g, ns := Node(operand, Nil, Nil), {operand};
    case Paren(sub) =>
      operand := new ExprNode(GroupTag);
      var ok;
      ghost var inner;
      ok, inner, ns := ParseExprNode(sub, operand, operand, Nil, {});
      if !ok { return null, Nil, {}; }
      g, ns := Node(operand, Nil, inner), ns + {operand};
  }

  /** Continues a parse below `top`. Either `e` is `top`, a group without an expression yet, or `e` is
      the last operator read, which is the expression of `top` and whose left operand is `acc`. */
  method ParseExprNode(toks: seq<Token>, e: ExprNode, ghost top: ExprNode, ghost acc: Linked, ghost nodes: set<ExprNode>)
    returns (ok: bool, ghost g: Linked, ghost ns: set<ExprNode>)
    requires top.tag == GroupTag && e.right == null && Nodes(acc) == nodes
    requires if e == top then e.left == null && acc == Nil
             else e.tag.OpTag? && e.parent == top && top.right == e && e.left == Root(acc) && Hangs(acc, e) && top !in Nodes(acc)
    modifies e`parent, e`right, top`right
    ensures ok <==> Read(toks).Some?
    ensures top.parent == old(top.parent) && top.left == old(top.left)
    ensures ok ==> Hangs(g, top) && top.right == Root(g) && ns == Nodes(g) && fresh(ns - nodes - {e})
    ensures ok ==> Value(g) == if e == top then ParseTree(toks).value else Lean(Value(acc), e.tag.op, Read(toks).value)
    decreases toks, 2
  {
    hide Proper, Nodes, Links;
    if |toks| == 0 {
      g := if e == top then Nil else Node(e, acc, Nil);
      ns := if e == top then {} else nodes + {e};
      NilHangs(e);
      ParseEnd(e, top, acc, Nil);
      return true, g, ns;
    }
    var operand: ExprNode?;
    ghost var o, os;
    operand, o, os := ReadOperand(toks[0], toks);
    if operand == null { return false, Nil, {}; }
    if |toks| == 1 || !toks[1].Oper? {
      e.right := operand;
      SetParent(operand, e, o, os);
      g := if e == top then o else Node(e, acc, o);
      ns := if e == top then os else nodes + {e} + os;
      ParseEnd(e, top, acc, o);
      return true, g, ns;
    }
    hide Hangs;
    if e.tag == GroupTag {
      var operator := FirstOperator(toks[1].op, e, operand, o, os);
      ok, g, ns := ParseExprNode(toks[2..], operator, top, o, os);
    } else {
      var operator := NextOperator(toks[1].op, e, top, acc, nodes, operand, o, os);
      ok, g, ns := ParseExprNode(toks[2..], operator, top, Node(e, acc, o), nodes + {e} + os);
    }
  }

  /** The first operator goes between the group and its first operand. */
  method FirstOperator(op: Op, top: ExprNode, operand: ExprNode, ghost o: Linked, ghost os: set<ExprNode>) returns (operator: ExprNode)
    requires o.Node? && Proper(o) && o.n == operand && Links(o, null) && os == Nodes(o) && operand in os && top !in os
    modifies operand`parent, top`right
    ensures fresh(operator) && operator.tag == OpTag(op) && operator.right == null && operator.parent == top && top.right == operator
    ensures operator.left == Root(o) && Hangs(o, operator)
  {
    hide Proper, Nodes, Links;
    operator := new ExprNode(OpTag(op));
    operator.left := operand;
    SetParent(operand, operator, o, os);
    top.right := operator;
    operator.parent := top;
  }

  /** A later operator goes between the group and the last operator, which gets its right operand. */
  method NextOperator(op: Op, e: ExprNode, ghost top: ExprNode, ghost acc: Linked, ghost nodes: set<ExprNode>,
                      operand: ExprNode, ghost o: Linked, ghost os: set<ExprNode>) returns (operator: ExprNode)
    requires o.Node? && Proper(o) && o.n == operand && Links(o, null) && os == Nodes(o) && operand in os
    requires e != top && e.tag.OpTag? && e.parent == top && e.left == Root(acc) && Hangs(acc, e) && nodes == Nodes(acc)
    requires top !in nodes && top !in os && e !in os && nodes !! os
    modifies operand`parent, top`right, e`parent, e`right
    ensures fresh(operator) && operator.tag == OpTag(op) && operator.right == null && operator.parent == top && top.right == operator
    ensures var joined := Node(e, acc, o); operator.left == e && Hangs(joined, operator) && Nodes(joined) == nodes + {e} + os
  {
    hide Proper, Nodes, Links;
    operator := new ExprNode(OpTag(op));
    operator.parent := e.parent;
    operator.parent.right := operator;
    operator.left := e;
    e.parent := operator;
    e.right := operand;
    SetParent(operand, e, o, os);
    ghost var joined := Node(e, acc, o);
    Parts(joined);
    LinksParts(joined, operator);
  }

  /** The expression of `top` once the last operand `o`, if any, is in place. */
  lemma ParseEnd(e: ExprNode, top: ExprNode, acc: Linked, o: Linked)
    requires Hangs(o, e) && Nodes(acc) !! Nodes(o) && e.right == Root(o)
    requires if e == top then acc == Nil
             else e.tag.OpTag? && e.parent == top && top.right == e && e.left == Root(acc) && Hangs(acc, e)
                  && top !in Nodes(acc) && top !in Nodes(o)
    ensures var g := if e == top then o else Node(e, acc, o);
      && Hangs(g, top) && top.right == Root(g) && Nodes(g) == (if e == top then Nodes(o) else Nodes(acc) + {e} + Nodes(o))
      && Value(g) == if e == top then Value(o) else Bin(e.tag.op, Value(acc), Value(o))
  {
  }

  /** Parses an expression and sorts it: the tree under the returned group is the tree of the grammar, with
      agreeing parent and child links. */
  method ParseExpr(toks: seq<Token>) returns (e: ExprNode?, ghost g: Linked)
    ensures e == null <==> forall t :: !IsTree(t, toks)
    ensures e != null ==> fresh(e) && e.tag == GroupTag && e.right == Root(g) && Hangs(g, e) && IsTree(Value(g), toks)
  {
    var top := new ExprNode(GroupTag);
    ghost var ns;
    var ok;
    ok, g, ns := ParseExprNode(toks, top, top, Nil, {});
    ParseThenSort(toks);
    if !ok { return null, Nil; }
    ParseLoose(toks);
    g := SortPriority(top, g, ns);
    return top, g;
  }
}
