/**
 * The grammar of tag expressions, stated without priorities: one level of left-associative operators
 * above the other, operands at the bottom. A token sequence has at most one tree, the one that the
 * reference parser builds by splitting at the last operator of least priority.
 */
module Grammar {
  import opened Precedence
  import opened Options

  /** The input after tokenising: operands, parenthesised sub-expressions and operators. */
  datatype Token = Atom(id: nat) | Paren(sub: seq<Token>) | Oper(op: Op)

  /** Alternating operands and operators; a missing last operand is `Absent`. */
  datatype Chain = Chain(os: seq<Ast>, ops: seq<Op>)

  // ---------- the grammar ----------

  /** The operators of a level, from `||` up to the products. */
  function Operators(level: nat): set<Op> {
    if level == 1 then {Or}
    else if level == 2 then {And}
    else if level == 3 then {Eq, Ne}
    else if level == 4 then {Lt, Le, Gt, Ge}
    else if level == 5 then {Add, Sub}
    else if level == 6 then {Mul, Div, Rem}
    else {}
  }

  /** A level is a chain of its operators, leaning left, between expressions of the next level; above the
      products there are operands only. */
  ghost predicate AtLevel(t: Ast, level: nat)
    decreases t, 7 - level
  {
    if level >= 7 then !t.Bin?
    else (t.Bin? && t.op in Operators(level) && AtLevel(t.left, level) && AtLevel(t.right, level + 1)) || AtLevel(t, level + 1)
  }

  /** The operand a token stands for. */
  ghost predicate IsOperand(o: Ast, tok: Token)
    decreases tok, 0
  {
    match tok
    case Atom(a) => o == Leaf(a)
    case Paren(sub) => o.Group? && IsTree(o.inner, sub)
    case Oper(_) => false
  }

  /** The operands and operators are the tokens up to the first place where no operator follows an operand;
      behind an operator at the very end the operand is missing. */
  ghost predicate Spells(os: seq<Ast>, ops: seq<Op>, toks: seq<Token>)
    decreases toks, 1
  {
    if toks == [] then os == [Absent] && ops == []
    else
      && os != [] && IsOperand(os[0], toks[0])
      && if |toks| > 1 && toks[1].Oper? then ops != [] && ops[0] == toks[1].op && Spells(os[1..], ops[1..], toks[2..])
         else |os| == 1 && ops == []
  }

  /** `t` is the expression that the tokens spell. */
  ghost predicate IsTree(t: Ast, toks: seq<Token>)
    decreases toks, 2
  {
    AtLevel(t, 1) && Spells(Operands(t), Ops(t), toks)
  }

  // ---------- what precedence prescribes ----------

  /** The same reading, with sub-expressions built by precedence. */
  function RefRead(toks: seq<Token>): (c: Option<Chain>)
    ensures c.Some? ==> |c.value.os| == |c.value.ops| + 1
    decreases toks, 1
  {
    if toks == [] then Some(Chain([Absent], []))
    else
      match toks[0]
      case Oper(_) => None
      case Atom(a) => RefExtend(Leaf(a), toks)
      case Paren(sub) =>
        var t := RefTree(sub);
        if t.None? then None else RefExtend(Group(t.value), toks)
  }

  function RefExtend(operand: Ast, toks: seq<Token>): (c: Option<Chain>)
    requires toks != []
    ensures c.Some? ==> |c.value.os| == |c.value.ops| + 1
    decreases toks, 0
  {
    if |toks| == 1 || !toks[1].Oper? then Some(Chain([operand], []))
    else
      var c := RefRead(toks[2..]);
      if c.None? then None else Some(Chain([operand] + c.value.os, [toks[1].op] + c.value.ops))
  }

  /** The reference parser: split at the last operator of least priority, groups inside out. */
  function RefTree(toks: seq<Token>): Option<Ast>
    decreases toks, 2
  {
    var c := RefRead(toks);
    if c.None? then None else Some(Build(c.value.os, c.value.ops))
  }

  // ---------- the reference parser and the grammar agree ----------

  lemma Levels(op: Op, level: nat)
    ensures op in Operators(level) <==> Priority(op) == level
  {
  }

  ghost predicate NoneBin(os: seq<Ast>) { forall i :: 0 <= i < |os| ==> !os[i].Bin? }

  /** The tree built from operands and operators holds them in order. */
  lemma {:induction false} BuildHolds(os: seq<Ast>, ops: seq<Op>)
    requires |os| == |ops| + 1 && NoneBin(os)
    ensures Operands(Build(os, ops)) == os && Ops(Build(os, ops)) == ops
    decreases |ops|
  {
    if ops == [] {
      assert os == [os[0]];
    } else {
      var k := Weakest(ops);
      hide Operands, Ops;
      var l, r := Build(os[..k + 1], ops[..k]), Build(os[k + 1..], ops[k + 1..]);
      assert Build(os, ops) == Bin(ops[k], l, r);
      assert NoneBin(os[..k + 1]) && NoneBin(os[k + 1..]);
      hide Build, Weakest, NoneBin;
      BuildHolds(os[..k + 1], ops[..k]);
      BuildHolds(os[k + 1..], ops[k + 1..]);
      Rejoined(os, ops, k);
      BinHolds(ops[k], l, r);
    }
  }

  lemma BinHolds(op: Op, l: Ast, r: Ast)
    ensures Operands(Bin(op, l, r)) == Operands(l) + Operands(r) && Ops(Bin(op, l, r)) == Ops(l) + [op] + Ops(r)
  {
  }

  lemma Rejoined(os: seq<Ast>, ops: seq<Op>, k: nat)
    requires |os| == |ops| + 1 && k < |ops|
    ensures os[..k + 1] + os[k + 1..] == os && ops[..k] + [ops[k]] + ops[k + 1..] == ops
  {
  }

  lemma Cut(a: seq<Ast>, b: seq<Ast>, x: seq<Op>, op: Op, y: seq<Op>)
    requires |a| == |x| + 1
    ensures var os, ops, k := a + b, x + [op] + y, |x|;
      ops[k] == op && os[..k + 1] == a && os[k + 1..] == b && ops[..k] == x && ops[k + 1..] == y
  {
  }

  /** An expression of a level is one of every level before it. */
  lemma {:induction false} LevelsBelow(t: Ast, level: nat, lower: nat)
    requires AtLevel(t, level) && lower <= level <= 7
    ensures AtLevel(t, lower)
    decreases level - lower
  {
    if lower < level { LevelsBelow(t, level, lower + 1); }
  }

  lemma {:induction false} BuildAtLevel(os: seq<Ast>, ops: seq<Op>, level: nat)
    requires |os| == |ops| + 1 && NoneBin(os) && level <= 7 && forall i :: 0 <= i < |ops| ==> Priority(ops[i]) >= level
    ensures AtLevel(Build(os, ops), level)
    decreases |ops|
  {
    if ops == [] {
      LevelsBelow(os[0], 7, level);
    } else {
      var k := Weakest(ops);
      var p := Priority(ops[k]);
      BuildAtLevel(os[..k + 1], ops[..k], p);
      BuildAtLevel(os[k + 1..], ops[k + 1..], p + 1);
      Levels(ops[k], p);
      LevelsBelow(Build(os, ops), p, level);
    }
  }

  lemma BuiltAgain(t: Ast)
    requires t.Bin? && Build(Operands(t.left), Ops(t.left)) == t.left && Build(Operands(t.right), Ops(t.right)) == t.right
    requires forall o :: o in Ops(t.left) ==> Priority(t.op) <= Priority(o)
    requires forall o :: o in Ops(t.right) ==> Priority(t.op) < Priority(o)
    ensures Build(Operands(t), Ops(t)) == t
  {
    var l, r := t.left, t.right;
    assert Operands(t) == Operands(l) + Operands(r) && Ops(t) == Ops(l) + [t.op] + Ops(r);
    hide Operands, Ops;
    WeakestAt(Ops(l), t.op, Ops(r));
    hide Weakest;
    Cut(Operands(l), Operands(r), Ops(l), t.op, Ops(r));
  }

  /** An expression of a level is what the reference builds, and has no weaker operator. */
  lemma {:induction false} LevelIsBuilt(t: Ast, level: nat)
    requires AtLevel(t, level)
    ensures Build(Operands(t), Ops(t)) == t && NoneBin(Operands(t)) && forall o :: o in Ops(t) ==> Priority(o) >= level
    decreases t, 7 - level
  {
    if level < 7 && !AtLevel(t, level + 1) {
      hide Build;
      LevelIsBuilt(t.left, level);
      LevelIsBuilt(t.right, level + 1);
      Levels(t.op, level);
      BuiltAgain(t);
    } else if level < 7 {
      LevelIsBuilt(t, level + 1);
    }
  }

  /** What the reference reads is what the tokens spell. */
  lemma {:induction false} ReadSpells(os: seq<Ast>, ops: seq<Op>, toks: seq<Token>)
    ensures RefRead(toks) == Some(Chain(os, ops)) <==> Spells(os, ops, toks)
    ensures Spells(os, ops, toks) ==> NoneBin(os)
    decreases toks, 1
  {
    if toks != [] && os != [] {
      OperandSpells(os[0], toks[0]);
      RefReadStep(toks);
      if |toks| > 1 && toks[1].Oper? {
        if ops != [] {
          ReadSpells(os[1..], ops[1..], toks[2..]);
          assert os == [os[0]] + os[1..] && ops == [ops[0]] + ops[1..];
        }
        hide RefRead, IsOperand, OperandOf;
        Prepended(OperandOf(toks[0]), toks[1].op, RefRead(toks[2..]), os, ops);
      } else {
        assert |os| == 1 ==> os == [os[0]];
      }
    }
  }

  /** The reference reads an operand and what follows it. */
  lemma RefReadStep(toks: seq<Token>)
    requires toks != []
    ensures var o := OperandOf(toks[0]);
      RefRead(toks) ==
        if o.None? then None
        else if |toks| == 1 || !toks[1].Oper? then Some(Chain([o.value], []))
        else Prepend(o.value, toks[1].op, RefRead(toks[2..]))
  {
    hide Build;
  }

  function Prepend(o: Ast, op: Op, c: Option<Chain>): Option<Chain> {
    if c.None? then None else Some(Chain([o] + c.value.os, [op] + c.value.ops))
  }

  lemma Prepended(o: Option<Ast>, op: Op, c: Option<Chain>, os: seq<Ast>, ops: seq<Op>)
    requires os != []
    ensures o.Some? && Prepend(o.value, op, c) == Some(Chain(os, ops)) <==>
            o == Some(os[0]) && ops != [] && ops[0] == op && c == Some(Chain(os[1..], ops[1..]))
  {
    if c.Some? {
      if o.Some? && Prepend(o.value, op, c) == Some(Chain(os, ops)) {
        assert os[1..] == c.value.os && ops[1..] == c.value.ops;
      } else if ops != [] && c == Some(Chain(os[1..], ops[1..])) {
        assert os == [os[0]] + os[1..] && ops == [ops[0]] + ops[1..];
      }
    }
  }

  ghost function OperandOf(tok: Token): Option<Ast> {
    match tok
    case Atom(a) => Some(Leaf(a))
    case Paren(sub) => var t := RefTree(sub); if t.None? then None else Some(Group(t.value))
    case Oper(_) => None
  }

  lemma {:induction false} OperandSpells(o: Ast, tok: Token)
    ensures OperandOf(tok) == Some(o) <==> IsOperand(o, tok)
    decreases tok, 0
  {
    if tok.Paren? && o.Group? { ReferenceIsGrammar(tok.sub, o.inner); }
  }

  /** The reference parser builds a tree exactly when it is one of the grammar, so the grammar has at most one. */
  lemma {:induction false} ReferenceIsGrammar(toks: seq<Token>, t: Ast)
    ensures RefTree(toks) == Some(t) <==> IsTree(t, toks)
    decreases toks, 2
  {
    if RefTree(toks) == Some(t) {
      var c := RefRead(toks).value;
      ReadSpells(c.os, c.ops, toks);
      BuildHolds(c.os, c.ops);
      BuildAtLevel(c.os, c.ops, 1);
    } else if IsTree(t, toks) {
      LevelIsBuilt(t, 1);
      ReadSpells(Operands(t), Ops(t), toks);
    }
  }
}
