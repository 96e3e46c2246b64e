/** Path normalisation (in the manner of section 5.2.4 of RFC 3986): the reference is a machine that
    reads the segments of a path from left to right and keeps a stack; the implementation edits one
    buffer in place. Unlike the RFC, duplicate slashes collapse and a final dot segment is kept. */
module PathNormal {
  import opened ByteCodec

  type Segments = seq<bytes>

  const NOTHING: bytes := []
  const ONE_DOT: bytes := [DOT]
  const TWO_DOTS: bytes := [DOT, DOT]

  predicate NoSlash(x: bytes) { SLASH !in x }

  ghost predicate Clean(segs: Segments) { forall i :: 0 <= i < |segs| ==> NoSlash(segs[i]) }

  /** Every segment behind a slash. */
  function Join(segs: Segments): bytes {
    if segs == [] then [] else [SLASH] + segs[0] + Join(segs[1..])
  }

  /** The segments of a rooted path. */
  function Split(p: bytes): (segs: Segments)
    requires p != [] && p[0] == SLASH
    ensures segs != [] && Clean(segs) && Join(segs) == p
    decreases |p|
  {
    var n := First(p[1..], SLASH);
    var x := p[1..][..n];
    if n + 1 == |p| then
      assert p == [SLASH] + x + [];
      assert [x][1..] == [];
      [x]
    else
      assert p == [SLASH] + x + p[n + 1..];
      var rest := Split(p[n + 1..]);
      assert ([x] + rest)[1..] == rest;
      [x] + rest
  }

  // ---------- the stack machine ----------

  function Pop(stack: Segments): Segments { if stack == [] then [] else stack[..|stack| - 1] }

  /** One segment that is followed by another. */
  function Step(stack: Segments, x: bytes): Segments {
    if x == NOTHING || x == ONE_DOT then stack
    else if x == TWO_DOTS then Pop(stack)
    else stack + [x]
  }

  function Run(stack: Segments, xs: Segments): Segments
    decreases |xs|
  {
    if xs == [] then stack else Run(Step(stack, xs[0]), xs[1..])
  }

  /** The machine's result: the last segment is kept unless it goes up. */
  function Machine(segs: Segments): (r: Segments)
    requires segs != []
    ensures r != []
  {
    var n := |segs| - 1;
    var stack := Run([], segs[..n]);
    if segs[n] == TWO_DOTS then Pop(stack) + [NOTHING] else stack + [segs[n]]
  }

  /** The normal form of a decoded, rooted path. */
  function Normalize(p: bytes): bytes
    requires p != [] && p[0] == SLASH
  {
    Join(Machine(Split(p)))
  }

  /** The leading slash that a path may be missing, then the decoded path. */
  function Rooted(src: bytes): (p: bytes)
    ensures p != [] && p[0] == SLASH
  {
    (if src == [] || src[0] != SLASH then [SLASH] else []) + Decode(src, false)
  }

  /** A path without its leading slash is read as if it had one, and a slash in front is kept as it is. */
  lemma RootedMeans(src: bytes)
    ensures Rooted([SLASH] + src) == [SLASH] + Decode(src, false)
    ensures src == [] || src[0] != SLASH ==> Rooted(src) == Rooted([SLASH] + src)
  {
    assert ([SLASH] + src)[1..] == src;
  }

  predicate Plain(x: bytes) { x != NOTHING && x != ONE_DOT && x != TWO_DOTS }

  // ---------- runs of the machine ----------

  lemma {:induction false} RunAppend(stack: Segments, a: Segments, b: Segments)
    ensures Run(stack, a + b) == Run(Run(stack, a), b)
    decreases |a|
  {
    if a == [] { assert a + b == b; }
    else { assert (a + b)[1..] == a[1..] + b; RunAppend(Step(stack, a[0]), a[1..], b); }
  }

  lemma {:induction false} RunPlain(stack: Segments, a: Segments)
    requires forall i :: 0 <= i < |a| ==> Plain(a[i])
    ensures Run(stack, a) == stack + a
    decreases |a|
  {
    if a != [] {
      RunPlain(stack + [a[0]], a[1..]);
      assert stack + [a[0]] + a[1..] == stack + a;
    }
  }

  /** Whatever is on the stack is plain. */
  lemma {:induction false} RunKeepsPlain(stack: Segments, a: Segments)
    requires Clean(stack) && Clean(a) && forall i :: 0 <= i < |stack| ==> Plain(stack[i])
    ensures Clean(Run(stack, a)) && forall i :: 0 <= i < |Run(stack, a)| ==> Plain(Run(stack, a)[i])
    decreases |a|
  {
    if a != [] { RunKeepsPlain(Step(stack, a[0]), a[1..]); }
  }

  /** Segments that leave the stack as they found it may be cut out together. */
  lemma CutKeeps(segs: Segments, i: nat, k: nat)
    requires i <= k < |segs| && Run([], segs[..k]) == Run([], segs[..i])
    ensures Machine(segs[..i] + segs[k..]) == Machine(segs)
  {
    hide Run;
    var tail := segs[k..|segs| - 1];
    CutParts(segs, i, k);
    RunAppend([], segs[..i], tail);
    RunAppend([], segs[..k], tail);
  }

  lemma CutParts(segs: Segments, i: nat, k: nat)
    requires i <= k < |segs|
    ensures var cut, n := segs[..i] + segs[k..], |segs| - 1;
      && cut[..|cut| - 1] == segs[..i] + segs[k..n] && segs[..n] == segs[..k] + segs[k..n]
      && cut[|cut| - 1] == segs[n]
  {
  }

  /** An empty or dot segment that is not last has no effect. */
  lemma SkipKeeps(segs: Segments, i: nat)
    requires i + 1 < |segs| && (segs[i] == NOTHING || segs[i] == ONE_DOT)
    ensures Machine(segs[..i] + segs[i + 1..]) == Machine(segs)
  {
    hide Machine;
    RunAppend([], segs[..i], [segs[i]]);
    assert segs[..i] + [segs[i]] == segs[..i + 1];
    assert [segs[i]][1..] == [];
    CutKeeps(segs, i, i + 1);
  }

  /** The first step up cancels the segment before it, if there is one. */
  lemma UpKeeps(segs: Segments, i: nat)
    requires i + 1 < |segs| && segs[i] == TWO_DOTS && forall j :: 0 <= j < i ==> Plain(segs[j])
    ensures var k := if i == 0 then 0 else i - 1; Machine(segs[..k] + segs[i + 1..]) == Machine(segs)
  {
    var k := if i == 0 then 0 else i - 1;
    RunPlain([], segs[..i]);
    RunPlain([], segs[..k]);
    RunAppend([], segs[..i], [segs[i]]);
    assert segs[..i] + [segs[i]] == segs[..i + 1];
    assert [segs[i]][1..] == [];
    assert [] + segs[..i] == segs[..i] && [] + segs[..k] == segs[..k];
    assert Pop(segs[..i]) == segs[..k];
    CutKeeps(segs, k, i + 1);
  }

  /** The machine on segments that need no further cutting. */
  lemma MachineDone(segs: Segments)
    requires segs != [] && forall i :: 0 <= i < |segs| - 1 ==> Plain(segs[i])
    ensures Machine(segs) == if segs[|segs| - 1] == TWO_DOTS then Pop(segs[..|segs| - 1]) + [NOTHING] else segs
  {
    var n := |segs| - 1;
    RunPlain([], segs[..n]);
    assert [] + segs[..n] == segs[..n] && segs[..n] + [segs[n]] == segs;
  }

  lemma MachineShape(segs: Segments)
    requires segs != [] && Clean(segs)
    ensures var r := Machine(segs);
      Clean(r) && r[|r| - 1] != TWO_DOTS && forall i :: 0 <= i < |r| - 1 ==> Plain(r[i])
  {
    RunKeepsPlain([], segs[..|segs| - 1]);
  }

  // ---------- segments as text ----------

  lemma {:induction false} JoinAppend(a: Segments, b: Segments)
    ensures Join(a + b) == Join(a) + Join(b)
  {
    if a == [] { assert a + b == b; }
    else {
      assert (a + b)[1..] == a[1..] + b;
      JoinAppend(a[1..], b);
      var h := [SLASH] + a[0];
      assert h + (Join(a[1..]) + Join(b)) == (h + Join(a[1..])) + Join(b);
    }
  }

  ghost function Offset(segs: Segments, i: nat): nat
    requires i <= |segs|
  {
    |Join(segs[..i])|
  }

  /** The text around one segment. */
  lemma JoinAt(segs: Segments, i: nat)
    requires i < |segs|
    ensures Join(segs) == Join(segs[..i]) + ([SLASH] + segs[i] + Join(segs[i + 1..]))
  {
    assert segs == segs[..i] + segs[i..];
    JoinAppend(segs[..i], segs[i..]);
    assert segs[i..][1..] == segs[i + 1..];
  }

  /** Slashes stand only in front of segments. */
  lemma {:induction false} SlashAt(segs: Segments, n: nat) returns (i: nat)
    requires Clean(segs) && n < |Join(segs)| && Join(segs)[n] == SLASH
    ensures i < |segs| && Offset(segs, i) == n
  {
    var m := 1 + |segs[0]|;
    assert forall k :: 0 < k < m ==> Join(segs)[k] == segs[0][k - 1];
    if n == 0 {
      i := 0;
    } else {
      var rest := segs[1..];
      assert Join(segs)[n] == Join(rest)[n - m];
      var j := SlashAt(rest, n - m);
      i := j + 1;
      assert segs[..i] == [segs[0]] + rest[..j];
      assert ([segs[0]] + rest[..j])[1..] == rest[..j];
    }
  }

  ghost predicate Occurs(b: bytes, n: nat, pat: bytes) { n + |pat| <= |b| && b[n..n + |pat|] == pat }

  /** The text of a segment between two slashes. */
  function Between(x: bytes): bytes { [SLASH] + x + [SLASH] }

  /** Such a text occurs exactly where that segment stands, and is not last. */
  lemma OccursIsSegment(segs: Segments, n: nat, x: bytes) returns (i: nat)
    requires Clean(segs) && NoSlash(x) && Occurs(Join(segs), n, Between(x))
    ensures i + 1 < |segs| && Offset(segs, i) == n && segs[i] == x
  {
    var b, pat := Join(segs), Between(x);
    assert b[n] == b[n..n + |pat|][0];
    i := SlashAt(segs, n);
    JoinAt(segs, i);
    var tail := segs[i] + Join(segs[i + 1..]);
    assert b[n + 1..] == tail;
    assert forall k :: 0 <= k <= |x| ==> tail[k] == b[n..n + |pat|][1 + k];
    SameHead(segs[i], Join(segs[i + 1..]), x, tail);
  }

  /** Text without a slash, up to the first slash or the end. */
  lemma SameHead(s: bytes, rest: bytes, x: bytes, t: bytes)
    requires NoSlash(s) && NoSlash(x) && (rest == [] || rest[0] == SLASH) && t == s + rest
    requires |x| < |t| && t[..|x|] == x && t[|x|] == SLASH
    ensures s == x && rest != []
  {
    assert forall k :: 0 <= k < |s| ==> t[k] == s[k];
    assert forall k :: 0 <= k < |x| ==> t[k] == x[k];
    assert rest != [] ==> t[|s|] == SLASH;
  }

  lemma SegmentOccurs(segs: Segments, i: nat)
    requires i + 1 < |segs|
    ensures Occurs(Join(segs), Offset(segs, i), Between(segs[i]))
  {
    JoinAt(segs, i);
    OccursInside(Join(segs[..i]), segs[i], Join(segs[i + 1..]));
  }

  lemma OccursInside(a: bytes, x: bytes, rest: bytes)
    requires rest != [] && rest[0] == SLASH
    ensures Occurs(a + ([SLASH] + x + rest), |a|, Between(x))
  {
    var b, pat := a + ([SLASH] + x + rest), Between(x);
    assert b == a + pat + rest[1..];
  }

  lemma {:induction false} OffsetMonotone(segs: Segments, i: nat, j: nat)
    requires i < j <= |segs|
    ensures Offset(segs, i) < Offset(segs, j)
  {
    assert segs[..j] == segs[..i] + segs[i..j];
    JoinAppend(segs[..i], segs[i..j]);
  }

  /** Cutting segments out of the text. */
  lemma CutText(segs: Segments, i: nat, k: nat)
    requires i <= k <= |segs|
    ensures Offset(segs, i) <= Offset(segs, k) <= |Join(segs)|
    ensures Join(segs)[..Offset(segs, i)] + Join(segs)[Offset(segs, k)..] == Join(segs[..i] + segs[k..])
  {
    assert segs == segs[..i] + segs[i..] && segs == segs[..k] + segs[k..] && segs[..k] == segs[..i] + segs[i..k];
    JoinAppend(segs[..i], segs[i..]);
    JoinAppend(segs[..k], segs[k..]);
    JoinAppend(segs[..i], segs[i..k]);
    JoinAppend(segs[..i], segs[k..]);
  }

  // ---------- normal paths ----------

  predicate EndsUp(p: bytes) { |p| >= 3 && p[|p| - 3..] == [SLASH, DOT, DOT] }

  /** A rooted path without duplicate slashes, without dot segments except for a final single dot. */
  ghost predicate Normal(p: bytes) {
    && p != [] && p[0] == SLASH && !EndsUp(p)
    && forall n :: 0 <= n < |p| ==>
         !Occurs(p, n, Between(NOTHING)) && !Occurs(p, n, Between(ONE_DOT)) && !Occurs(p, n, Between(TWO_DOTS))
  }

  lemma EndsUpIsLast(segs: Segments)
    requires segs != [] && Clean(segs)
    ensures EndsUp(Join(segs)) <==> segs[|segs| - 1] == TWO_DOTS
    ensures EndsUp(Join(segs)) ==> Offset(segs, |segs| - 1) == |Join(segs)| - 3
  {
    hide Join;
    var p, n := Join(segs), |segs| - 1;
    JoinAt(segs, n);
    JoinNothing();
    assert segs[n + 1..] == [];
    assert p == Join(segs[..n]) + [SLASH] + segs[n];
    if EndsUp(p) {
      assert p[|p| - 3] == p[|p| - 3..][0];
      var i := SlashAt(segs, |p| - 3);
      var m := Offset(segs, n);
      assert p[m] == SLASH;
      assert p[|p| - 2] == p[|p| - 3..][1] && p[|p| - 1] == p[|p| - 3..][2];
      if i < n { OffsetMonotone(segs, i, n); }
      assert segs[n] == p[|p| - 2..] == p[|p| - 3..][1..];
    }
  }

  /** The normal form is normal. */
  lemma NormalizeIsNormal(p: bytes)
    requires p != [] && p[0] == SLASH
    ensures Normal(Normalize(p))
  {
    var r := Machine(Split(p));
    MachineShape(Split(p));
    EndsUpIsLast(r);
    forall n, x: bytes | 0 <= n < |Join(r)| && NoSlash(x) && Occurs(Join(r), n, Between(x)) ensures Plain(x) {
      var i := OccursIsSegment(r, n, x);
    }
  }

  /** Normal paths are left alone. */
  lemma NormalFixed(p: bytes)
    requires Normal(p)
    ensures Normalize(p) == p
  {
    var segs := Split(p);
    EndsUpIsLast(segs);
    forall i | 0 <= i < |segs| - 1 ensures Plain(segs[i]) {
      SegmentOccurs(segs, i);
    }
    MachineDone(segs);
  }

  // ---------- in place ----------

  /** The first occurrence of `pat` in `a[lo..hi]`, or -1. */
  method IndexOf(a: array<byte>, lo: nat, hi: nat, pat: bytes) returns (n: int)
    requires lo <= hi <= a.Length && pat != []
    ensures n == -1 ==> forall k :: lo <= k < hi ==> !Occurs(a[..hi], k, pat)
    ensures n != -1 ==> lo <= n && Occurs(a[..hi], n, pat) && forall k :: lo <= k < n ==> !Occurs(a[..hi], k, pat)
  {
    n := lo;
    while n + |pat| <= hi
      invariant lo <= n <= hi
      invariant forall k :: lo <= k < n ==> !Occurs(a[..hi], k, pat)
    {
      assert a[..hi][n..n + |pat|] == a[n..n + |pat|];
      if a[n..n + |pat|] == pat { return; }
      n := n + 1;
    }
    n := -1;
  }

  /** The last slash before `hi`, or -1. */
  method LastSlash(a: array<byte>, hi: nat) returns (n: int)
    requires hi <= a.Length
    ensures -1 <= n < hi && (n >= 0 ==> a[n] == SLASH) && forall k :: n < k < hi ==> a[k] != SLASH
  {
    n := hi - 1;
    while n >= 0 && a[n] != SLASH
      invariant -1 <= n < hi
      invariant forall k :: n < k < hi ==> a[k] != SLASH
    {
      n := n - 1;
    }
  }

  /** Moves `a[from..hi]` down to `to`, byte by byte over itself. */
  method CopyDown(a: array<byte>, to: nat, from: nat, hi: nat)
    requires to <= from <= hi <= a.Length
    modifies a
    ensures forall k :: 0 <= k < to ==> a[k] == old(a[k])
    ensures forall k :: to <= k < to + hi - from ==> a[k] == old(a[k + (from - to)])
  {
    var i := to;
    while i < to + hi - from
      invariant to <= i <= to + hi - from
      invariant forall k :: 0 <= k < to ==> a[k] == old(a[k])
      invariant forall k :: to <= k < i ==> a[k] == old(a[k + (from - to)])
      invariant forall k :: i <= k < a.Length ==> a[k] == old(a[k])
    {
      a[i] := a[i + (from - to)];
      i := i + 1;
    }
  }

  lemma Shifted(before: bytes, after: bytes, to: nat, from: nat)
    requires to <= from <= |before| && |after| == |before| - (from - to)
    requires forall k :: 0 <= k < to ==> after[k] == before[k]
    requires forall k :: to <= k < |after| ==> after[k] == before[k + (from - to)]
    ensures after == before[..to] + before[from..]
  {
  }

  /** The buffer holds these segments. */
  ghost predicate Holds(a: array<byte>, size: nat, segs: Segments)
    reads a
  {
    size <= a.Length && segs != [] && Clean(segs) && a[..size] == Join(segs)
  }

  /** Cuts segments out of the buffer. */
  method CutOut(a: array<byte>, size: nat, to: nat, from: nat, ghost segs: Segments, ghost i: nat, ghost k: nat)
    requires Holds(a, size, segs) && i <= k < |segs| && to == Offset(segs, i) && from == Offset(segs, k)
    requires to <= from <= size
    modifies a
    ensures Holds(a, size - (from - to), segs[..i] + segs[k..])
    ensures a[..size - (from - to)] == old(a[..size])[..to] + old(a[..size])[from..]
  {
    hide Join;
    CutText(segs, i, k);
    ghost var before := a[..size];
    CopyDown(a, to, from, size);
    Shifted(before, a[..size - (from - to)], to, from);
  }

  lemma NextOffset(segs: Segments, i: nat)
    requires i < |segs|
    ensures Offset(segs, i + 1) == Offset(segs, i) + 1 + |segs[i]| <= |Join(segs)|
  {
    assert segs[..i + 1] == segs[..i] + [segs[i]];
    JoinAppend(segs[..i], [segs[i]]);
    assert [segs[i]][1..] == [];
    CutText(segs, i, i + 1);
  }

  lemma OffsetZero(segs: Segments)
    ensures Offset(segs, 0) == 0
  {
  }

  /** No segment before the last is `x`. */
  ghost predicate Without(segs: Segments, x: bytes) { forall i :: 0 <= i < |segs| - 1 ==> segs[i] != x }

  lemma WithoutText(segs: Segments, x: bytes)
    requires Clean(segs) && NoSlash(x) && forall n :: 0 <= n < |Join(segs)| ==> !Occurs(Join(segs), n, Between(x))
    ensures Without(segs, x)
  {
    forall i | 0 <= i < |segs| - 1 ensures segs[i] != x { SegmentOccurs(segs, i); }
  }

  /** Which segment a first occurrence is. */
  lemma FirstSegment(segs: Segments, n: nat, x: bytes) returns (i: nat)
    requires Clean(segs) && NoSlash(x) && Occurs(Join(segs), n, Between(x))
    requires forall k :: 0 <= k < n ==> !Occurs(Join(segs), k, Between(x))
    ensures i + 1 < |segs| && Offset(segs, i) == n && segs[i] == x && forall j :: 0 <= j < i ==> segs[j] != x
  {
    i := OccursIsSegment(segs, n, x);
    forall j | 0 <= j < i ensures segs[j] != x {
      SegmentOccurs(segs, j);
      OffsetMonotone(segs, j, i);
    }
  }

  /** The last occurrence of `pat` in `a[..hi]`, or -1. */
  method LastIndexOf(a: array<byte>, hi: nat, pat: bytes) returns (n: int)
    requires hi <= a.Length && pat != []
    ensures n == -1 || (0 <= n && Occurs(a[..hi], n, pat))
    ensures forall k :: 0 <= k && n < k < hi ==> !Occurs(a[..hi], k, pat)
  {
    n := hi - |pat|;
    while n >= 0
      invariant -1 <= n || n == hi - |pat|
      invariant forall k :: 0 <= k && n < k < hi ==> !Occurs(a[..hi], k, pat)
    {
      assert a[..hi][n..n + |pat|] == a[n..n + |pat|];
      if a[n..n + |pat|] == pat { return; }
      n := n - 1;
    }
    n := -1;
  }

  /** Removes duplicate slashes, moving the search window forward as it goes. */
  method DropDuplicates(a: array<byte>, size0: nat, ghost segs0: Segments) returns (size: nat, ghost segs: Segments)
    requires Holds(a, size0, segs0)
    modifies a
    ensures Holds(a, size, segs) && Machine(segs) == Machine(segs0) && Without(segs, NOTHING)
  {
    hide Machine, Join;
    size, segs := size0, segs0;
    var off: nat := 0;
    while true
      invariant Holds(a, size, segs) && Machine(segs) == Machine(segs0)
      invariant off <= size && forall k :: 0 <= k < off ==> !Occurs(a[..size], k, [SLASH, SLASH])
      decreases size
    {
      var n := IndexOf(a, off, size, [SLASH, SLASH]);
      assert Between(NOTHING) == [SLASH, SLASH];
      if n == -1 {
        assert forall k :: 0 <= k < size ==> !Occurs(a[..size], k, [SLASH, SLASH]);
        assert a[..size] == Join(segs);
        WithoutText(segs, NOTHING);
        return;
      }
      ghost var i := FirstSegment(segs, n, NOTHING);
      ghost var before := a[..size];
      NextOffset(segs, i);
      SkipKeeps(segs, i);
      CutOut(a, size, n, n + 1, segs, i, i + 1);
      size, segs, off := size - 1, segs[..i] + segs[i + 1..], n;
      NothingEarlier(before, a[..size], n);
    }
  }

  /** Taking one of two slashes out brings no duplicate to the front. */
  lemma NothingEarlier(before: bytes, after: bytes, n: nat)
    requires Occurs(before, n, [SLASH, SLASH]) && after == before[..n] + before[n + 1..]
    requires forall k :: 0 <= k < n ==> !Occurs(before, k, [SLASH, SLASH])
    ensures forall k :: 0 <= k < n ==> !Occurs(after, k, [SLASH, SLASH])
  {
    assert before[n] == before[n..n + 2][0] && before[n + 1] == before[n..n + 2][1];
    forall k | 0 <= k < n ensures !Occurs(after, k, [SLASH, SLASH]) {
      assert !Occurs(before, k, [SLASH, SLASH]);
      assert after[k] == before[k] && after[k + 1] == before[k + 1];
      assert after[k..k + 2] == [after[k], after[k + 1]] && before[k..k + 2] == [before[k], before[k + 1]];
    }
  }

  /** Removes dot segments. */
  method DropDots(a: array<byte>, size0: nat, ghost segs0: Segments) returns (size: nat, ghost segs: Segments)
    requires Holds(a, size0, segs0) && Without(segs0, NOTHING)
    modifies a
    ensures Holds(a, size, segs) && Machine(segs) == Machine(segs0) && Without(segs, NOTHING) && Without(segs, ONE_DOT)
  {
    hide Machine, Join;
    size, segs := size0, segs0;
    while true
      invariant Holds(a, size, segs) && Machine(segs) == Machine(segs0) && Without(segs, NOTHING)
      decreases size
    {
      var n := IndexOf(a, 0, size, [SLASH, DOT, SLASH]);
      assert Between(ONE_DOT) == [SLASH, DOT, SLASH];
      if n == -1 {
        assert a[..size] == Join(segs);
        assert forall k :: 0 <= k < size ==> !Occurs(a[..size], k, Between(ONE_DOT));
        WithoutText(segs, ONE_DOT);
        return;
      }
      ghost var i := FirstSegment(segs, n, ONE_DOT);
      NextOffset(segs, i);
      SkipKeeps(segs, i);
      CutOut(a, size, n, n + 2, segs, i, i + 1);
      size, segs := size - 2, segs[..i] + segs[i + 1..];
    }
  }

  /** The slash before the segment that a step up cancels. */
  lemma SlashBefore(segs: Segments, i: nat, nn: int)
    requires Clean(segs) && i < |segs| && -1 <= nn < Offset(segs, i) <= |Join(segs)|
    requires nn >= 0 ==> Join(segs)[nn] == SLASH
    requires forall k :: nn < k < Offset(segs, i) ==> Join(segs)[k] != SLASH
    ensures if i == 0 then nn == -1 else nn == Offset(segs, i - 1)
  {
    OffsetZero(segs);
    if i > 0 {
      hide Join;
      NextOffset(segs, i - 1);
      JoinAt(segs, i - 1);
      LastSlashIs(Join(segs[..i - 1]), segs[i - 1], Join(segs[i..]), Join(segs), nn);
    }
  }

  lemma LastSlashIs(a: bytes, x: bytes, rest: bytes, b: bytes, nn: int)
    requires NoSlash(x) && b == a + ([SLASH] + x + rest) && -1 <= nn < |a| + 1 + |x|
    requires (nn >= 0 ==> b[nn] == SLASH) && forall k :: nn < k < |a| + 1 + |x| ==> b[k] != SLASH
    ensures nn == |a|
  {
    assert b[|a|] == SLASH;
    assert forall k :: |a| < k < |a| + 1 + |x| ==> b[k] == x[k - |a| - 1];
  }

  /** Removes each step up together with the segment before it. */
  method DropSteps(a: array<byte>, size0: nat, ghost segs0: Segments) returns (size: nat, ghost segs: Segments)
    requires Holds(a, size0, segs0) && Without(segs0, NOTHING) && Without(segs0, ONE_DOT)
    modifies a
    ensures Holds(a, size, segs) && Machine(segs) == Machine(segs0)
    ensures Without(segs, NOTHING) && Without(segs, ONE_DOT) && Without(segs, TWO_DOTS)
  {
    hide Machine, Join;
    size, segs := size0, segs0;
    while true
      invariant Holds(a, size, segs) && Machine(segs) == Machine(segs0) && Without(segs, NOTHING) && Without(segs, ONE_DOT)
      decreases size
    {
      var n := IndexOf(a, 0, size, [SLASH, DOT, DOT, SLASH]);
      assert Between(TWO_DOTS) == [SLASH, DOT, DOT, SLASH];
      if n == -1 {
        assert a[..size] == Join(segs);
        assert forall k :: 0 <= k < size ==> !Occurs(a[..size], k, Between(TWO_DOTS));
        WithoutText(segs, TWO_DOTS);
        return;
      }
      ghost var i := FirstSegment(segs, n, TWO_DOTS);
      NextOffset(segs, i);
      UpKeeps(segs, i);
      assert Offset(segs, 0) == 0 by { OffsetZero(segs); }
      var nn := LastSlash(a, n);
      SlashBefore(segs, i, nn);
      if nn < 0 { nn := 0; }
      n := n + 3;
      ghost var k := if i == 0 then 0 else i - 1;
      CutOut(a, size, nn, n, segs, k, i + 1);
      size, segs := size - n + nn, segs[..k] + segs[i + 1..];
    }
  }

  /** Removes a final step up together with the segment before it. */
  method DropTrailing(a: array<byte>, size: nat, ghost segs: Segments) returns (dst: bytes)
    requires Holds(a, size, segs) && Without(segs, NOTHING) && Without(segs, ONE_DOT) && Without(segs, TWO_DOTS)
    ensures dst == Join(Machine(segs))
  {
    hide Machine, Join;
    MachineDone(segs);
    EndsUpIsLast(segs);
    var n := LastIndexOf(a, size, [SLASH, DOT, DOT]);
    assert EndsUp(a[..size]) <==> n >= 0 && n + 3 == size by { EndsUpOccurs(a[..size], n); }
    if n >= 0 && n + 3 == size {
      ghost var k := |segs| - 1;
      var nn := LastSlash(a, n);
      SlashBefore(segs, k, nn);
      UpLast(segs);
      if nn < 0 { return [SLASH]; }
      return a[..nn + 1];
    }
    dst := a[..size];
  }

  lemma EndsUpOccurs(p: bytes, n: int)
    requires n == -1 || (0 <= n && Occurs(p, n, [SLASH, DOT, DOT]))
    requires forall k :: 0 <= k && n < k < |p| ==> !Occurs(p, k, [SLASH, DOT, DOT])
    ensures EndsUp(p) <==> n >= 0 && n + 3 == |p|
  {
    if EndsUp(p) { assert Occurs(p, |p| - 3, [SLASH, DOT, DOT]); }
  }

  lemma JoinNothing()
    ensures Join([NOTHING]) == [SLASH] && Join([]) == []
  {
    assert [NOTHING][1..] == [];
  }

  /** The text left when a final step up is taken: everything up to the slash of the segment before it. */
  lemma UpLast(segs: Segments)
    requires segs != []
    ensures |segs| == 1 ==> Join(Pop(segs[..0]) + [NOTHING]) == [SLASH]
    ensures |segs| > 1 ==>
      var k := |segs| - 1;
      Offset(segs, k - 1) < |Join(segs)| && Join(Pop(segs[..k]) + [NOTHING]) == Join(segs)[..Offset(segs, k - 1) + 1]
  {
    hide Join;
    JoinNothing();
    var k := |segs| - 1;
    var stack := Pop(segs[..k]);
    JoinAppend(stack, [NOTHING]);
    if k > 0 {
      assert stack == segs[..k - 1];
      JoinAt(segs, k - 1);
      var rest := segs[k - 1] + Join(segs[k..]);
      assert [SLASH] + segs[k - 1] + Join(segs[k..]) == [SLASH] + rest;
      UpTo(Join(stack), rest, Join(segs));
    }
  }

  lemma UpTo(a: bytes, rest: bytes, b: bytes)
    requires b == a + ([SLASH] + rest)
    ensures |a| < |b| && b[..|a| + 1] == a + [SLASH]
  {
  }

  /** Normalises a path: adds a leading slash, decodes, and edits the buffer in place. */
  method NormalizePath(src: bytes) returns (dst: bytes)
    ensures dst == Normalize(Rooted(src))
  {
    hide Machine, Join;
    var lead: bytes := if |src| == 0 || src[0] != SLASH then [SLASH] else [];
    var decoded := DecodeAppend(lead, src, false);
    var a := new byte[|decoded|](i requires 0 <= i < |decoded| => decoded[i]);
    var size := |decoded|;
    assert a[..size] == decoded;
    ghost var segs := Split(decoded);
    size, segs := DropDuplicates(a, size, segs);
    size, segs := DropDots(a, size, segs);
    size, segs := DropSteps(a, size, segs);
    dst := DropTrailing(a, size, segs);
  }
}
