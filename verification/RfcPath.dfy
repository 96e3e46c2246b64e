/**
 * Path normalisation against the algorithm of section 5.2.4 of RFC 3986: where the two agree, exactly.
 * The code deviates twice: it collapses duplicate slashes and keeps a final dot segment.
 */
module RfcPath {
  import opened ByteCodec
  import opened PathNormal

  const DOT_END: bytes := [SLASH, DOT]
  const DOTS_END: bytes := [SLASH, DOT, DOT]

  // ---------- the algorithm on text ----------

  /** The output buffer without its last segment and the slash before it. */
  function DropLast(out: bytes): (r: bytes)
    ensures |r| <= |out|
  {
    if out == [] then [] else if out[|out| - 1] == SLASH then out[..|out| - 1] else DropLast(out[..|out| - 1])
  }

  /** The steps 2A to 2E of the RFC's loop; 2B and 2C have a form for the end of the buffer. */
  datatype Rule = TwoA(n: nat) | TwoB | TwoBEnd | TwoC | TwoCEnd | TwoD | TwoE

  function RuleFor(input: bytes): (r: Rule)
    requires input != []
    ensures r.TwoA? ==> 0 < r.n <= |input|
    ensures r.TwoB? ==> |input| >= 3
    ensures r.TwoC? ==> |input| >= 4
    ensures r.TwoBEnd? || r.TwoCEnd? ==> |input| >= 2
  {
    if [DOT, DOT, SLASH] <= input then TwoA(3)
    else if [DOT, SLASH] <= input then TwoA(2)
    else if Between(ONE_DOT) <= input then TwoB
    else if input == DOT_END then TwoBEnd
    else if Between(TWO_DOTS) <= input then TwoC
    else if input == DOTS_END then TwoCEnd
    else if input == ONE_DOT || input == TWO_DOTS then TwoD
    else TwoE
  }

  /** The loop with its input and output buffers. */
  function RemoveDots(input: bytes, out: bytes): bytes
    decreases |input|
  {
    if input == [] then out else
    match RuleFor(input)
    case TwoA(n) => RemoveDots(input[n..], out)
    case TwoB => RemoveDots(input[2..], out)
    case TwoBEnd => RemoveDots([SLASH], out)
    case TwoC => RemoveDots(input[3..], DropLast(out))
    case TwoCEnd => RemoveDots([SLASH], DropLast(out))
    case TwoD => RemoveDots([], out)
    case TwoE =>
      var n := 1 + First(input[1..], SLASH);
      RemoveDots(input[n..], out + input[..n])
  }

  // ---------- the algorithm on segments ----------

  /** One segment that is followed by another: an empty one counts like any other. */
  function RfcStep(stack: Segments, x: bytes): Segments {
    if x == ONE_DOT then stack else if x == TWO_DOTS then Pop(stack) else stack + [x]
  }

  function RfcRun(stack: Segments, xs: Segments): Segments
    decreases |xs|
  {
    if xs == [] then stack else RfcRun(RfcStep(stack, xs[0]), xs[1..])
  }

  function RfcEnd(stack: Segments, x: bytes): Segments {
    if x == ONE_DOT then stack + [NOTHING] else if x == TWO_DOTS then Pop(stack) + [NOTHING] else stack + [x]
  }

  function Rfc(segs: Segments): Segments
    requires segs != []
  {
    RfcEnd(RfcRun([], segs[..|segs| - 1]), segs[|segs| - 1])
  }

  lemma JoinOne(x: bytes, rest: Segments)
    ensures Join([x] + rest) == [SLASH] + x + Join(rest)
  {
    assert ([x] + rest)[1..] == rest;
  }

  lemma JoinPush(stack: Segments, x: bytes)
    ensures Join(stack + [x]) == Join(stack) + [SLASH] + x
  {
    JoinAppend(stack, [x]);
    JoinOne(x, []);
    assert [x] + [] == [x];
  }

  lemma {:induction false} DropLastText(text: bytes, x: bytes)
    requires NoSlash(x)
    ensures DropLast(text + [SLASH] + x) == text
    decreases |x|
  {
    var out := text + [SLASH] + x;
    if x == [] {
      assert out == text + [SLASH];
    } else {
      var y := x[..|x| - 1];
      assert out[|out| - 1] == x[|x| - 1] && x[|x| - 1] in x;
      assert out[..|out| - 1] == text + [SLASH] + y;
      assert forall c :: c in y ==> c in x;
      DropLastText(text, y);
    }
  }

  /** Dropping the last segment of the output is popping the stack. */
  lemma DropLastPops(stack: Segments)
    requires Clean(stack)
    ensures DropLast(Join(stack)) == Join(Pop(stack))
  {
    if stack != [] {
      var n := |stack| - 1;
      assert stack == stack[..n] + [stack[n]];
      JoinPush(stack[..n], stack[n]);
      DropLastText(Join(stack[..n]), stack[n]);
    }
  }

  /** The first segment of the input buffer. */
  lemma FirstOf(x: bytes, rest: Segments)
    requires NoSlash(x)
    ensures var input := [SLASH] + x + Join(rest);
      First(input[1..], SLASH) == |x| && input[..1 + |x|] == [SLASH] + x && input[1 + |x|..] == Join(rest)
  {
    var input, t := [SLASH] + x + Join(rest), Join(rest);
    assert input[1..] == x + t;
    FirstIs(input[1..], SLASH, |x|);
  }

  /** The step a first segment calls for. */
  function RuleOf(x: bytes, last: bool): Rule {
    if x == ONE_DOT then if last then TwoBEnd else TwoB
    else if x == TWO_DOTS then if last then TwoCEnd else TwoC
    else TwoE
  }

  lemma RuleIs(x: bytes, t: bytes)
    requires NoSlash(x) && (t != [] ==> t[0] == SLASH)
    ensures RuleFor([SLASH] + x + t) == RuleOf(x, t == [])
  {
    var input := [SLASH] + x + t;
    assert input[0] == SLASH && DOT != SLASH;
    assert NoSlash(ONE_DOT) && NoSlash(TWO_DOTS);
    Delimited(x, t, ONE_DOT);
    Delimited(x, t, TWO_DOTS);
    WholeText(x, t, ONE_DOT);
    WholeText(x, t, TWO_DOTS);
    assert DOT_END == [SLASH] + ONE_DOT && DOTS_END == [SLASH] + TWO_DOTS;
    hide NoSlash;
    assert !([DOT, SLASH] <= input) && !([DOT, DOT, SLASH] <= input);
  }

  lemma WholeText(x: bytes, t: bytes, y: bytes)
    requires NoSlash(x) && NoSlash(y) && (t != [] ==> t[0] == SLASH)
    ensures [SLASH] + x + t == [SLASH] + y <==> y == x && t == []
  {
    assert ([SLASH] + x + t)[1..] == x + t && ([SLASH] + y)[1..] == y;
    assert t != [] ==> SLASH in x + t by { assert t != [] ==> (x + t)[|x|] == SLASH; }
  }

  lemma Delimited(x: bytes, t: bytes, y: bytes)
    requires NoSlash(x) && NoSlash(y) && (t != [] ==> t[0] == SLASH)
    ensures Between(y) <= [SLASH] + x + t <==> y == x && t != []
  {
    var rest := x + t;
    assert ([SLASH] + x + t)[1..] == rest && Between(y)[1..] == y + [SLASH];
    FirstIs(rest, SLASH, |x|);
    if y + [SLASH] <= rest {
      assert forall i :: 0 <= i < |y| ==> rest[i] == (y + [SLASH])[i] == y[i];
      assert rest[|y|] == (y + [SLASH])[|y|];
      FirstIs(rest, SLASH, |y|);
      assert y == rest[..|y|] && x == rest[..|x|];
    }
    if y == x && t != [] {
      assert rest == x + [SLASH] + t[1..];
    }
    assert Between(y) <= [SLASH] + x + t <==> y + [SLASH] <= rest;
  }

  /** The input buffer holds the segments still to be read, the output buffer the stack. */
  lemma {:induction false} TextIsSegments(segs: Segments, stack: Segments)
    requires segs != [] && Clean(segs) && Clean(stack)
    ensures RemoveDots(Join(segs), Join(stack)) == Join(RfcEnd(RfcRun(stack, segs[..|segs| - 1]), segs[|segs| - 1]))
    decreases |segs|
  {
    var x, rest := segs[0], segs[1..];
    assert segs == [x] + rest;
    JoinOne(x, rest);
    hide RemoveDots, Join;
    if rest == [] {
      LastSegment(x, stack);
    } else {
      var next := RfcStep(stack, x);
      InnerSegment(x, rest, stack);
      assert segs[..|segs| - 1][1..] == rest[..|rest| - 1];
      TextIsSegments(rest, next);
    }
  }

  lemma InnerSegment(x: bytes, rest: Segments, stack: Segments)
    requires NoSlash(x) && rest != [] && Clean(stack)
    ensures RemoveDots(Join([x] + rest), Join(stack)) == RemoveDots(Join(rest), Join(RfcStep(stack, x)))
  {
    hide Join, DropLast, First, RemoveDots, NoSlash, Clean, Pop;
    JoinOne(x, rest);
    JoinPush(stack, x);
    DropLastPops(stack);
    OneStep(x, rest, Join(stack));
  }

  /** One round of the loop with more than one segment left. */
  lemma OneStep(x: bytes, rest: Segments, out: bytes)
    requires NoSlash(x) && rest != []
    ensures RemoveDots([SLASH] + x + Join(rest), out) ==
            RemoveDots(Join(rest), if x == ONE_DOT then out else if x == TWO_DOTS then DropLast(out) else out + [SLASH] + x)
  {
    var input := [SLASH] + x + Join(rest);
    FirstOf(x, rest);
    assert Join(rest)[0] == SLASH;
    RuleIs(x, Join(rest));
    hide First, DropLast, Join, NoSlash, RuleFor;
    assert out + ([SLASH] + x) == out + [SLASH] + x;
  }

  lemma LastSegment(x: bytes, stack: Segments)
    requires NoSlash(x) && Clean(stack)
    ensures RemoveDots(Join([x]), Join(stack)) == Join(RfcEnd(stack, x))
  {
    assert [x] + [] == [x] && Join([]) == [];
    hide Join, DropLast, First, RemoveDots, NoSlash, Clean, Pop;
    JoinOne(x, []);
    assert [SLASH] + x + [] == [SLASH] + x;
    JoinPush(stack, x);
    JoinPush(stack, NOTHING);
    JoinPush(Pop(stack), NOTHING);
    DropLastPops(stack);
    LastStep(x, Join(stack));
    assert forall t: bytes {:trigger t + [SLASH] + NOTHING} :: t + [SLASH] + NOTHING == t + [SLASH];
  }

  /** The last round, or the last two. */
  lemma LastStep(x: bytes, out: bytes)
    requires NoSlash(x)
    ensures RemoveDots([SLASH] + x, out) ==
            if x == ONE_DOT then out + [SLASH] else if x == TWO_DOTS then DropLast(out) + [SLASH] else out + [SLASH] + x
  {
    var input := [SLASH] + x;
    FirstOf(x, []);
    assert Join([]) == [] && input + [] == input;
    RuleIs(x, []);
    LoneSlash(out);
    LoneSlash(DropLast(out));
    hide DropLast, Join, NoSlash, First, RuleFor;
    assert out + ([SLASH] + x) == out + [SLASH] + x;
  }

  lemma LoneSlash(out: bytes)
    ensures RemoveDots([SLASH], out) == out + [SLASH]
  {
    RuleIs([], []);
    assert [SLASH] + [] + [] == [SLASH];
    assert [SLASH][1..] == [] && [SLASH][..1] == [SLASH];
  }

  // ---------- where the code and the RFC agree ----------

  /** How deep a path leads, counting segments only; empty segments count for the RFC and not for the code. */
  function Depth(xs: Segments, empty: bool): nat
    decreases |xs|
  {
    if xs == [] then 0 else
    var d, x := Depth(xs[..|xs| - 1], empty), xs[|xs| - 1];
    if x == TWO_DOTS then if d == 0 then 0 else d - 1
    else if x == ONE_DOT || (x == NOTHING && !empty) then d
    else d + 1
  }

  /** The segments before the last, and the last when it goes up. */
  function Inner(segs: Segments): Segments
    requires segs != []
  {
    if segs[|segs| - 1] == TWO_DOTS then segs else segs[..|segs| - 1]
  }

  lemma {:induction false} RunLast(stack: Segments, xs: Segments)
    requires xs != []
    ensures Run(stack, xs) == Step(Run(stack, xs[..|xs| - 1]), xs[|xs| - 1])
    ensures RfcRun(stack, xs) == RfcStep(RfcRun(stack, xs[..|xs| - 1]), xs[|xs| - 1])
    decreases |xs|
  {
    if |xs| > 1 {
      assert xs[1..][..|xs| - 2] == xs[..|xs| - 1][1..];
      RunLast(Step(stack, xs[0]), xs[1..]);
      RunLast(RfcStep(stack, xs[0]), xs[1..]);
    }
  }

  /** The two stacks are the same, or that of the RFC is higher. */
  lemma {:induction false} Heights(xs: Segments)
    ensures |Run([], xs)| == Depth(xs, false) && |RfcRun([], xs)| == Depth(xs, true)
    ensures Run([], xs) == RfcRun([], xs) || Depth(xs, false) < Depth(xs, true)
    decreases |xs|
  {
    if xs != [] {
      RunLast([], xs);
      Heights(xs[..|xs| - 1]);
    }
  }

  /**
   * For every path: the code does what the RFC prescribes exactly when the path does not end in a dot
   * segment and leads equally deep whether or not empty segments count.
   */
  lemma AgreesExactly(segs: Segments)
    requires segs != []
    ensures Machine(segs) == Rfc(segs) <==>
            segs[|segs| - 1] != ONE_DOT && Depth(Inner(segs), false) == Depth(Inner(segs), true)
  {
    var n := |segs| - 1;
    Heights(segs[..n]);
    Heights(segs);
    RunLast([], segs);
    var m, r := Run([], segs[..n]), RfcRun([], segs[..n]);
    hide Run, RfcRun, Depth;
    SameLast(m, segs[n], r, segs[n]);
    SameLast(m, ONE_DOT, r, NOTHING);
    SameLast(Pop(m), NOTHING, Pop(r), NOTHING);
  }

  lemma SameLast(a: Segments, x: bytes, b: Segments, y: bytes)
    ensures a + [x] == b + [y] <==> a == b && x == y
  {
    if a + [x] == b + [y] {
      assert (a + [x])[..|a|] == a && (b + [y])[..|b|] == b;
      assert (a + [x])[|a|] == x && (b + [y])[|b|] == y;
    }
  }

  lemma {:induction false} RfcClean(stack: Segments, xs: Segments)
    requires Clean(stack) && Clean(xs)
    ensures Clean(RfcRun(stack, xs))
    decreases |xs|
  {
    if xs != [] { RfcClean(RfcStep(stack, xs[0]), xs[1..]); }
  }

  /** Different segments make different text. */
  lemma {:induction false} JoinInjective(a: Segments, b: Segments)
    requires Clean(a) && Clean(b) && Join(a) == Join(b)
    ensures a == b
    decreases |a|
  {
    if a != [] && b != [] {
      var x, y := a[0], b[0];
      assert a == [x] + a[1..] && b == [y] + b[1..];
      FirstOf(x, a[1..]);
      FirstOf(y, b[1..]);
      var p := Join(a);
      assert p[..1 + |x|][1..] == x && p[..1 + |y|][1..] == y;
      JoinInjective(a[1..], b[1..]);
    }
  }

  /** The loop of the RFC computes what its machine on segments does. */
  lemma TextIsRfc(f: Segments)
    requires f != [] && Clean(f)
    ensures RemoveDots(Join(f), []) == Join(Rfc(f)) && Clean(Rfc(f))
  {
    assert Join([]) == [];
    hide RemoveDots, RfcRun, Join;
    TextIsSegments(f, []);
    RfcClean([], f[..|f| - 1]);
  }

  /** What the loop of the RFC leaves of `f` is what the code leaves of `segs` exactly when the segments agree. */
  lemma SameText(segs: Segments, f: Segments)
    requires segs != [] && f != [] && Clean(segs) && Clean(f)
    ensures Join(Machine(segs)) == RemoveDots(Join(f), []) <==> Machine(segs) == Rfc(f)
  {
    hide Machine, RemoveDots, Rfc, Join;
    TextIsRfc(f);
    MachineShape(segs);
    if Join(Machine(segs)) == Join(Rfc(f)) { JoinInjective(Machine(segs), Rfc(f)); }
  }

  /** The same on text, for every rooted path. */
  lemma NormalizesLikeRfc(p: bytes)
    requires p != [] && p[0] == SLASH
    ensures var segs := Split(p);
      Normalize(p) == RemoveDots(p, []) <==>
      segs[|segs| - 1] != ONE_DOT && Depth(Inner(segs), false) == Depth(Inner(segs), true)
  {
    var segs := Split(p);
    SameText(segs, segs);
    AgreesExactly(segs);
    hide Machine, Rfc, RemoveDots, Depth, Inner, Join, Split;
  }

  // ---------- with duplicate slashes collapsed first ----------

  /** The segments without the empty ones before the last. */
  function Filled(segs: Segments): (r: Segments)
    requires segs != []
    ensures r != []
    decreases |segs|
  {
    if |segs| == 1 then segs
    else if segs[0] == NOTHING then Filled(segs[1..])
    else [segs[0]] + Filled(segs[1..])
  }

  lemma {:induction false} FilledParts(segs: Segments)
    requires segs != []
    ensures var r := Filled(segs); r[|r| - 1] == segs[|segs| - 1] && forall i :: 0 <= i < |r| - 1 ==> r[i] != NOTHING
    decreases |segs|
  {
    if |segs| > 1 { FilledParts(segs[1..]); }
  }

  /** Each run of slashes made one. */
  function Collapse(p: bytes): bytes {
    if p == [] then []
    else if |p| > 1 && p[0] == SLASH && p[1] == SLASH then Collapse(p[1..])
    else [p[0]] + Collapse(p[1..])
  }

  lemma {:induction false} CollapseWord(x: bytes, t: bytes)
    requires NoSlash(x)
    ensures Collapse(x + t) == x + Collapse(t)
  {
    if x == [] {
      assert x + t == t;
    } else {
      assert (x + t)[1..] == x[1..] + t && x[0] in x;
      CollapseWord(x[1..], t);
    }
  }

  lemma {:induction false} CollapseFills(segs: Segments)
    requires segs != [] && Clean(segs)
    ensures Collapse(Join(segs)) == Join(Filled(segs))
    decreases |segs|
  {
    var x, rest := segs[0], segs[1..];
    var t := Join(rest);
    assert segs == [x] + rest;
    var p := Join(segs);
    assert p[1..] == x + t;
    CollapseWord(x, t);
    if rest != [] {
      CollapseFills(rest);
      JoinOne(x, Filled(rest));
    } else {
      assert x + t == x;
      assert Filled(segs) == segs;
    }
    assert x != [] ==> x[0] in x;
  }

  lemma {:induction false} DepthFilled(xs: Segments)
    requires forall i :: 0 <= i < |xs| ==> xs[i] != NOTHING
    ensures Depth(xs, false) == Depth(xs, true)
    decreases |xs|
  {
    if xs != [] { DepthFilled(xs[..|xs| - 1]); }
  }

  lemma {:induction false} MachineFilled(segs: Segments, stack: Segments)
    requires segs != []
    ensures var f := Filled(segs); Run(stack, f[..|f| - 1]) == Run(stack, segs[..|segs| - 1])
    decreases |segs|
  {
    if |segs| > 1 {
      var x, rest := segs[0], segs[1..];
      MachineFilled(rest, Step(stack, x));
      var init, f := segs[..|segs| - 1], Filled(rest);
      assert init[0] == x && init[1..] == rest[..|rest| - 1];
      if x == NOTHING {
        assert Filled(segs) == f;
      } else {
        assert Filled(segs) == [x] + f;
        assert ([x] + f)[..|f|][0] == x && ([x] + f)[..|f|][1..] == f[..|f| - 1];
      }
    }
  }

  /** Without empty segments before the last, a final dot segment is the only difference. */
  lemma AgreesFilled(f: Segments)
    requires f != [] && forall i :: 0 <= i < |f| - 1 ==> f[i] != NOTHING
    ensures Machine(f) == Rfc(f) <==> f[|f| - 1] != ONE_DOT
  {
    AgreesExactly(f);
    hide Machine, Rfc, Depth;
    DepthFilled(f[..|f| - 1]);
    if f[|f| - 1] == TWO_DOTS { DepthFilled(f); }
  }

  /** The code has no use for empty segments. */
  lemma MachineFills(segs: Segments)
    requires segs != []
    ensures Machine(Filled(segs)) == Machine(segs)
  {
    MachineFilled(segs, []);
    FilledParts(segs);
    hide Run, Filled;
  }

  /** For every path: the code does what the RFC prescribes for the segments without the empty ones. */
  lemma FilledExactly(segs: Segments, f: Segments)
    requires segs != [] && f == Filled(segs)
    ensures Machine(segs) == Rfc(f) <==> segs[|segs| - 1] != ONE_DOT
  {
    hide Machine, Rfc, Filled;
    MachineFills(segs);
    FilledParts(segs);
    AgreesFilled(f);
  }

  /**
   * Once duplicate slashes are collapsed, the final dot segment is the only difference: the code does
   * what the RFC prescribes for the collapsed path exactly when the path does not end in one.
   */
  lemma CollapsedExactly(p: bytes)
    requires p != [] && p[0] == SLASH
    ensures Normalize(p) == RemoveDots(Collapse(p), []) <==> !EndsInDot(p)
  {
    var segs := Split(p);
    hide Machine, Rfc, RemoveDots, Split, Filled, Collapse, Join, Clean, EndsInDot;
    CollapseFills(segs);
    FilledClean(segs);
    var f := Filled(segs);
    SameText(segs, f);
    FilledExactly(segs, f);
    LastIsDot(segs);
  }

  lemma {:induction false} FilledClean(segs: Segments)
    requires segs != [] && Clean(segs)
    ensures Clean(Filled(segs))
  {
    if |segs| > 1 { FilledClean(segs[1..]); }
  }

  predicate EndsInDot(p: bytes) { |p| >= 2 && p[|p| - 2] == SLASH && p[|p| - 1] == DOT }

  lemma DotIsLast(init: Segments, x: bytes)
    requires NoSlash(x)
    ensures EndsInDot(Join(init + [x])) <==> x == ONE_DOT
  {
    hide Join, EndsInDot;
    JoinPush(init, x);
    DotText(Join(init), x);
  }

  lemma LastIsDot(segs: Segments)
    requires segs != [] && Clean(segs)
    ensures EndsInDot(Join(segs)) <==> segs[|segs| - 1] == ONE_DOT
  {
    var n := |segs| - 1;
    var init, x := segs[..n], segs[n];
    assert segs == init + [x];
    assert NoSlash(x);
    hide Join, EndsInDot, Clean, NoSlash;
    DotIsLast(init, x);
  }

  lemma DotText(t: bytes, x: bytes)
    requires NoSlash(x)
    ensures EndsInDot(t + [SLASH] + x) <==> x == ONE_DOT
  {
    var p := t + [SLASH] + x;
    assert |x| >= 2 ==> p[|p| - 2] == x[|x| - 2] && x[|x| - 2] in x;
    assert |x| == 1 ==> p[|p| - 1] == x[0] && p[|p| - 2] == SLASH;
    assert |x| == 0 ==> p[|p| - 1] == SLASH;
    assert x == ONE_DOT <==> |x| == 1 && x[0] == DOT;
  }

  // ---------- witnesses ----------

  lemma SplitOf(segs: Segments)
    requires segs != [] && Clean(segs)
    ensures Split(Join(segs)) == segs
  {
    JoinInjective(Split(Join(segs)), segs);
  }

  lemma WitnessSegments(a: bytes, b: bytes)
    requires Plain(a) && Plain(b)
    ensures Machine([a, NOTHING, b]) == [a, b] && Rfc([a, NOTHING, b]) == [a, NOTHING, b]
    ensures Machine([a, ONE_DOT]) == [a, ONE_DOT] && Rfc([a, ONE_DOT]) == [a, NOTHING]
  {
    RunTwo(a);
    hide Run, RfcRun;
    assert [a, NOTHING, b][..2] == [a, NOTHING] && [a, ONE_DOT][..1] == [a];
  }

  lemma RunTwo(a: bytes)
    requires Plain(a)
    ensures Run([], [a]) == [a] == RfcRun([], [a]) && Run([], [a, NOTHING]) == [a] && RfcRun([], [a, NOTHING]) == [a, NOTHING]
  {
    assert Run([], []) == [] == RfcRun([], []);
    hide Run, RfcRun;
    RunLast([], [a]);
    assert [a][..0] == [];
    RunLast([], [a, NOTHING]);
    assert [a, NOTHING][..1] == [a];
  }

  lemma WitnessText(segs: Segments, r: Segments, m: Segments)
    requires segs != [] && Clean(segs) && Clean(r) && Clean(m) && r == Rfc(segs) && m == Machine(segs) && r != m
    ensures Normalize(Join(segs)) == Join(m) && RemoveDots(Join(segs), []) == Join(r) != Join(m)
  {
    hide Machine, Rfc, RemoveDots, Split, Join;
    SplitOf(segs);
    TextIsRfc(segs);
    if Join(r) == Join(m) { JoinInjective(r, m); }
  }

  /** A duplicate slash: `/a//b` becomes `/a/b`, and the RFC leaves it alone. */
  lemma DuplicateDiffers()
    ensures var a: bytes, b: bytes := ['a' as byte], ['b' as byte];
      var p := Join([a, NOTHING, b]);
      Normalize(p) == Join([a, b]) && RemoveDots(p, []) == p != Normalize(p)
  {
    var a: bytes, b: bytes := ['a' as byte], ['b' as byte];
    assert a[0] != DOT && b[0] != DOT;
    WitnessSegments(a, b);
    hide Machine, Rfc, Join, Normalize, RemoveDots;
    WitnessText([a, NOTHING, b], [a, NOTHING, b], [a, b]);
  }

  /** A final dot: `/a/.` is left alone, and the RFC makes it `/a/`. */
  lemma FinalDotDiffers()
    ensures var a: bytes := ['a' as byte];
      var p := Join([a, ONE_DOT]);
      Normalize(p) == p && RemoveDots(p, []) == Join([a, NOTHING]) != p
  {
    var a: bytes := ['a' as byte];
    assert a[0] != DOT;
    WitnessSegments(a, a);
    hide Machine, Rfc, Join, Normalize, RemoveDots;
    WitnessText([a, ONE_DOT], [a, NOTHING], [a, ONE_DOT]);
  }
}
