/** Operator precedence in tag expressions, on trees as values: the tree a left-to-right parse builds,
    the rotation pass that repairs it, and the tree operator precedence prescribes. */
module Precedence {

  datatype Op = Mul | Div | Rem | Add | Sub | Lt | Le | Gt | Ge | Eq | Ne | And | Or

  /** Higher binds tighter. */
  function Priority(op: Op): (p: nat)
    ensures 1 <= p <= 6
  {
    match op
    case Mul | Div | Rem => 6
    case Add | Sub => 5
    case Lt | Le | Gt | Ge => 4
    case Eq | Ne => 3
    case And => 2
    case Or => 1
  }

  /** An expression tree. `Absent` is a missing operand; a group holds a whole expression. */
  datatype Ast = Absent | Leaf(atom: nat) | Group(inner: Ast) | Bin(op: Op, left: Ast, right: Ast)

  function RootPriority(t: Ast): nat { if t.Bin? then Priority(t.op) else 7 }

  /** The operators of an expression from left to right, groups left alone. */
  function Ops(t: Ast): seq<Op> {
    if t.Bin? then Ops(t.left) + [t.op] + Ops(t.right) else []
  }

  /** The operands between them. */
  function Operands(t: Ast): (os: seq<Ast>)
    ensures |os| == |Ops(t)| + 1
  {
    if t.Bin? then Operands(t.left) + Operands(t.right) else [t]
  }

  // ---------- the reference ----------

  /** The last operator of least priority. */
  function Weakest(ops: seq<Op>): (k: nat)
    requires ops != []
    ensures k < |ops|
    ensures forall i :: 0 <= i < |ops| ==> Priority(ops[k]) <= Priority(ops[i])
    ensures forall i :: k < i < |ops| ==> Priority(ops[k]) < Priority(ops[i])
  {
    if |ops| == 1 then 0
    else
      var k := 1 + Weakest(ops[1..]);
      if Priority(ops[0]) < Priority(ops[k]) then 0 else k
  }

  /** The tree of an operand and operator sequence: split at the last operator of least priority. */
  function Build(os: seq<Ast>, ops: seq<Op>): Ast
    requires |os| == |ops| + 1
    decreases |ops|
  {
    if ops == [] then os[0]
    else
      var k := Weakest(ops);
      Bin(ops[k], Build(os[..k + 1], ops[..k]), Build(os[k + 1..], ops[k + 1..]))
  }

  /** The operands of an expression, with the inside of every group put in order. */
  function Ordered(t: Ast): (os: seq<Ast>)
    ensures |os| == |Ops(t)| + 1
  {
    match t
    case Bin(_, l, r) => Ordered(l) + Ordered(r)
    case Group(i) => [Group(Build(Ordered(i), Ops(i)))]
    case _ => [t]
  }

  /** The tree that operator precedence gives the same sequence of operands and operators. */
  function Reference(t: Ast): Ast { Build(Ordered(t), Ops(t)) }

  // ---------- the rotation pass ----------

  function Rotate(t: Ast): Ast
    requires t.Bin? && t.left.Bin?
  {
    Bin(t.left.op, t.left.left, Bin(t.op, t.left.right, t.right))
  }

  /** One pass over the tree, children first; says whether anything was rotated. */
  function SubSort(t: Ast): (Ast, bool) {
    match t
    case Group(i) =>
      var (i', changed) := SubSort(i);
      (Group(i'), changed)
    case Bin(op, l, r) =>
      var (l', leftChanged) := SubSort(l);
      var (r', rightChanged) := SubSort(r);
      var t' := Bin(op, l', r');
      if Priority(op) > RootPriority(l') then (Rotate(t'), true) else (t', leftChanged || rightChanged)
    case _ => (t, false)
  }

  /** Every operator to the right of another below it binds strictly tighter. */
  ghost predicate Tight(t: Ast) {
    match t
    case Bin(op, l, r) => Tight(l) && Tight(r) && forall o :: o in Ops(r) ==> Priority(op) < Priority(o)
    case Group(i) => Tight(i)
    case _ => true
  }

  /** No operator binds tighter than its left child. */
  predicate Stable(t: Ast) {
    match t
    case Bin(op, l, r) => Stable(l) && Stable(r) && Priority(op) <= RootPriority(l)
    case Group(i) => Stable(i)
    case _ => true
  }

  function Size(t: Ast): nat {
    match t
    case Bin(_, l, r) => 1 + Size(l) + Size(r)
    case Group(i) => 1 + Size(i)
    case _ => 1
  }

  /** The sum of the sizes of all left subtrees. */
  function LeftWeight(t: Ast): nat {
    match t
    case Bin(_, l, r) => Size(l) + LeftWeight(l) + LeftWeight(r)
    case Group(i) => LeftWeight(i)
    case _ => 0
  }

  /** A rotation keeps the sequence of operands and operators. */
  lemma {:induction false} RotateKeeps(t: Ast)
    requires t.Bin? && t.left.Bin?
    ensures Ops(Rotate(t)) == Ops(t) && Operands(Rotate(t)) == Operands(t) && Ordered(Rotate(t)) == Ordered(t)
  {
    var s, u := t.left, Bin(t.op, t.left.right, t.right);
    assert Ops(t) == (Ops(s.left) + [s.op] + Ops(s.right)) + [t.op] + Ops(t.right);
    assert Ops(Rotate(t)) == Ops(s.left) + [s.op] + (Ops(s.right) + [t.op] + Ops(t.right));
    assert Operands(t) == (Operands(s.left) + Operands(s.right)) + Operands(t.right);
    assert Operands(Rotate(t)) == Operands(s.left) + (Operands(s.right) + Operands(t.right));
    assert Ordered(t) == (Ordered(s.left) + Ordered(s.right)) + Ordered(t.right);
    assert Ordered(Rotate(t)) == Ordered(s.left) + (Ordered(s.right) + Ordered(t.right));
  }

  /** A rotation keeps the size, makes left subtrees smaller, and keeps the invariant where the pass
      applies it. */
  lemma {:induction false} RotateProgress(t: Ast)
    requires t.Bin? && t.left.Bin?
    ensures Size(Rotate(t)) == Size(t) && LeftWeight(Rotate(t)) < LeftWeight(t)
    ensures Tight(t) && Priority(t.op) > Priority(t.left.op) ==> Tight(Rotate(t))
  {
    var s, u := t.left, Bin(t.op, t.left.right, t.right);
    assert Rotate(t) == Bin(s.op, s.left, u);
    assert Ops(u) == Ops(s.right) + [t.op] + Ops(t.right);
    assert Size(u) == 1 + Size(s.right) + Size(t.right);
    assert LeftWeight(u) == Size(s.right) + LeftWeight(s.right) + LeftWeight(t.right);
    if Tight(t) && Priority(t.op) > Priority(s.op) {
      assert Tight(s);
      assert Tight(u);
    }
  }

  /** One pass keeps what the expression means and the invariant; it reports a change exactly when it
      made progress, and none exactly when the tree is already in order. */
  lemma {:induction false} SubSortKeeps(t: Ast)
    ensures var (t', changed) := SubSort(t);
      && Ops(t') == Ops(t) && Ordered(t') == Ordered(t) && Size(t') == Size(t)
      && (Tight(t) ==> Tight(t'))
      && (if changed then LeftWeight(t') < LeftWeight(t) else t' == t)
      && (changed <==> !Stable(t))
  {
    match t
    case Group(i) => SubSortKeeps(i);
    case Bin(op, l, r) =>
      SubSortKeeps(l);
      SubSortKeeps(r);
      var s := Bin(op, SubSort(l).0, SubSort(r).0);
      if Priority(op) > RootPriority(s.left) {
        RotateKeeps(s);
        RotateProgress(s);
      }
    case _ =>
  }

  /** In an ordered tree the left operators bind at least as tight as their root. */
  lemma {:induction false} LeftTight(t: Ast, o: Op)
    requires Tight(t) && Stable(t) && t.Bin? && o in Ops(t.left)
    ensures Priority(t.op) <= Priority(o)
  {
    var l := t.left;
    if o in Ops(l.left) { LeftTight(l, o); }
  }

  lemma WeakestAt(a: seq<Op>, op: Op, b: seq<Op>)
    requires forall o :: o in a ==> Priority(op) <= Priority(o)
    requires forall o :: o in b ==> Priority(op) < Priority(o)
    ensures Weakest(a + [op] + b) == |a|
  {
    var ops := a + [op] + b;
    var k := Weakest(ops);
    assert ops[|a|] == op;
    assert forall i :: 0 <= i < |a| ==> ops[i] in a;
    assert forall i :: |a| < i < |ops| ==> ops[i] in b;
  }

  /** A tree with the invariant that no pass changes is the reference tree. */
  lemma {:induction false} StableIsReference(t: Ast)
    requires Tight(t) && Stable(t)
    ensures Reference(t) == t
  {
    match t
    case Bin(op, l, r) =>
      forall o | o in Ops(l) ensures Priority(op) <= Priority(o) { LeftTight(t, o); }
      WeakestAt(Ops(l), op, Ops(r));
      StableIsReference(l);
      StableIsReference(r);
      var k, os, ops := |Ops(l)|, Ordered(t), Ops(t);
      assert os[..k + 1] == Ordered(l) && os[k + 1..] == Ordered(r);
      assert ops[..k] == Ops(l) && ops[k + 1..] == Ops(r);
    case Group(i) => StableIsReference(i);
    case _ =>
  }

  /** The passes repeated until one changes nothing. */
  function Sort(t: Ast): Ast
    decreases LeftWeight(t)
  {
    var (t', changed) := SubSort(t);
    SubSortKeeps(t);
    if changed then Sort(t') else t'
  }

  /** From any tree with the invariant, the passes end at the reference tree. */
  lemma {:induction false} SortIsReference(t: Ast)
    requires Tight(t)
    ensures Sort(t) == Reference(t) && Stable(Sort(t))
    decreases LeftWeight(t)
  {
    SubSortKeeps(t);
    var (t', changed) := SubSort(t);
    if changed { SortIsReference(t'); } else { StableIsReference(t); }
  }
}
