/**
 * The parameter counter of a path: it counts colons and stars in 16 bits, names included, and should
 * cover the wildcards of the path's shape.
 */
module ParamCount {
  import opened Shapes
  import opened Trie

  const UINT16 := 0x1_0000

  /** The occurrences of one character, as a byte counter of 16 bits sees them. */
  method CountParams(path: string) returns (n: nat)
    ensures n == Wildcards(path) % UINT16
  {
    var colons, stars, i := 0, 0, 0;
    while i < |path|
      invariant 0 <= i <= |path|
      invariant colons + stars + Wildcards(path[i..]) == Wildcards(path)
    {
      assert path[i..][0] == path[i] && path[i..][1..] == path[i + 1..];
      if path[i] == PARAM { colons := colons + 1; }
      if path[i] == ANY { stars := stars + 1; }
      i := i + 1;
    }
    assert path[|path|..] == [] && colons + stars == Wildcards(path);
    hide Wildcards;
    n := 0;
    n := (n + colons % UINT16) % UINT16;
    n := (n + stars % UINT16) % UINT16;
    WrappedSum(colons, stars);
  }

  lemma WrappedSum(a: nat, b: nat)
    ensures ((0 + a % UINT16) % UINT16 + b % UINT16) % UINT16 == (a + b) % UINT16
  {
  }

  lemma {:induction false} NoneWild(a: string)
    requires NoWild(a)
    ensures Wildcards(a) == 0
  {
    if a != [] { NoneWild(a[1..]); }
  }

  /** A valid path has one wildcard character per wildcard, except that the name of a catch-all may
      hold one more colon. */
  lemma {:induction false} WildcardsBound(path: string, i: nat)
    requires ValidPath(path) && i <= |path|
    ensures Wildcards(Shape(path[i..])) <= Wildcards(path[i..]) <= Wildcards(Shape(path[i..])) + 1
    decreases |path| - i
  {
    if i < |path| {
      if path[i] == PARAM {
        var n := SegmentLength(path[i + 1..]);
        ParamHead(path, i, n);
        WildcardsBound(path, i + 1 + n);
      } else if path[i] == ANY {
        AnyName(path, i, i + 1);
        CharHead(path, i);
      } else {
        CharHead(path, i);
        WildcardsBound(path, i + 1);
      }
    }
  }

  /** A parameter counts once in the path and once in its shape. */
  lemma ParamHead(path: string, i: nat, n: nat)
    requires ValidPath(path) && i < |path| && path[i] == PARAM && n == SegmentLength(path[i + 1..])
    ensures i + 1 + n <= |path|
    ensures Wildcards(path[i..]) == 1 + Wildcards(path[i + 1 + n..])
    ensures Wildcards(Shape(path[i..])) == 1 + Wildcards(Shape(path[i + 1 + n..]))
  {
    assert ColonOk(path, i);
    var p, name, rest := path[i..], path[i + 1..i + 1 + n], path[i + 1 + n..];
    assert p[1..] == path[i + 1..] && p[1 + n..] == rest;
    assert Shape(p) == [PARAM] + Shape(rest);
    hide Shape, ValidPath;
    forall j | 0 <= j < n ensures !IsWild(name[j]) { assert name[j] == path[i + 1 + j]; }
    NoneWild(name);
    assert p == [PARAM] + (name + rest);
    WildcardsAppend([PARAM], name + rest);
    WildcardsAppend(name, rest);
    WildcardsAppend([PARAM], Shape(rest));
    assert [PARAM][1..] == [] && Wildcards([PARAM]) == 1;
  }

  /** Any other character, and what the star of a catch-all leaves of the shape. */
  lemma CharHead(path: string, i: nat)
    requires i < |path| && path[i] != PARAM
    ensures Wildcards(path[i..]) == (if path[i] == ANY then 1 else 0) + Wildcards(path[i + 1..])
    ensures Wildcards(Shape(path[i..])) == if path[i] == ANY then 1 else Wildcards(Shape(path[i + 1..]))
  {
    var p := path[i..];
    assert p[0] == path[i] && p[1..] == path[i + 1..];
    var s := Shape(p);
    if path[i] == ANY {
      assert s == [ANY] && s[1..] == [];
    } else {
      assert s[0] == path[i] && s[1..] == Shape(path[i + 1..]);
    }
  }

  /** Inside the name of a catch-all at most one wildcard character is left. */
  lemma {:induction false} AnyName(path: string, i: nat, k: nat)
    requires ValidPath(path) && i < k <= |path| && path[i] == ANY
    ensures Wildcards(path[k..]) <= 1
    decreases |path| - k
  {
    assert StarOk(path, i);
    if k < |path| {
      assert path[k..][1..] == path[k + 1..];
      assert path[k] == ANY ==> StarOk(path, k);
      if path[k] == PARAM {
        assert ColonOk(path, k);
        var rest := path[k + 1..];
        assert forall j :: 0 <= j < |rest| ==> rest[j] == path[k + 1 + j];
        SegmentIs(rest, |rest|);
        NoneWild(rest);
      } else {
        AnyName(path, i, k + 1);
      }
    }
  }

  /** The 16-bit counter covers the wildcards of a valid path exactly when it does not wrap. */
  lemma CounterCovers(path: string)
    requires ValidPath(path)
    ensures Wildcards(Shape(path)) <= Wildcards(path) % UINT16 <==> Wildcards(path) < UINT16
  {
    assert path[0..] == path;
    WildcardsBound(path, 0);
  }

  /** A path of `n` parameters. */
  function Segments(n: nat): string { if n == 0 then [] else ['/'] + ([PARAM] + (['p'] + Segments(n - 1))) }

  lemma OneMore(c: char, rest: string)
    ensures Wildcards([c] + rest) == (if IsWild(c) then 1 else 0) + Wildcards(rest)
    ensures !IsWild(c) ==> Shape([c] + rest) == [c] + Shape(rest)
  {
    assert ([c] + rest)[1..] == rest;
  }

  lemma ShapeParam(rest: string)
    requires rest == [] || rest[0] == '/'
    ensures Shape([PARAM] + (['p'] + rest)) == [PARAM] + Shape(rest)
  {
    var name := ['p'] + rest;
    var q := [PARAM] + name;
    assert q[1..] == name && q[2..] == rest;
    SegmentIs(name, 1);
  }

  lemma {:induction false} SegmentsWild(n: nat)
    ensures Wildcards(Segments(n)) == n == Wildcards(Shape(Segments(n)))
    ensures Segments(n) == [] || Segments(n)[0] == '/'
    ensures n > 0 ==> Segments(n) != []
  {
    if n > 0 {
      var rest := Segments(n - 1);
      SegmentsWild(n - 1);
      hide Wildcards, Shape;
      OneMore('p', rest);
      OneMore(PARAM, ['p'] + rest);
      OneMore('/', [PARAM] + (['p'] + rest));
      ShapeParam(rest);
      OneMore(PARAM, Shape(rest));
      OneMore('/', [PARAM] + Shape(rest));
    }
  }

  /** Read as a request, such a path is matched by its own shape. */
  lemma {:induction false} SegmentsMatch(n: nat)
    ensures Matches(Shape(Segments(n)), Segments(n))
  {
    if n > 0 {
      var rest := Segments(n - 1);
      SegmentsWild(n - 1);
      hide Shape, Matches;
      SegmentsMatch(n - 1);
      OneMore('/', [PARAM] + (['p'] + rest));
      ShapeParam(rest);
      OneSegment(Shape(rest), rest);
    }
  }

  lemma OneSegment(s: string, rest: string)
    requires Matches(s, rest) && (rest == [] || rest[0] == '/')
    ensures Matches(['/'] + ([PARAM] + s), ['/'] + ([PARAM] + (['p'] + rest)))
  {
    var value := [PARAM] + (['p'] + rest);
    SegmentIs(value, 2);
    assert value[2..] == rest && ([PARAM] + s)[1..] == s;
    assert (['/'] + ([PARAM] + s))[1..] == [PARAM] + s && (['/'] + value)[1..] == value;
  }

  ghost predicate Fine(p: string, i: nat)
    requires i < |p|
  {
    p[i] != ANY && (p[i] == PARAM ==> ColonOk(p, i))
  }

  /** Every parameter is named, in front of a slash or at the end. */
  lemma {:induction false} SegmentsFine(n: nat, i: nat)
    requires i < |Segments(n)|
    ensures Fine(Segments(n), i)
  {
    var p, rest := Segments(n), Segments(n - 1);
    assert p == ['/'] + ([PARAM] + (['p'] + rest));
    assert rest == [] || rest[0] == '/' by { SegmentsWild(n - 1); }
    hide Fine, Segments;
    if i >= 3 { SegmentsFine(n - 1, i - 3); }
    FineStep(p, rest, i);
  }

  lemma FineStep(p: string, rest: string, i: nat)
    requires p == ['/'] + ([PARAM] + (['p'] + rest)) && i < |p| && (rest == [] || rest[0] == '/')
    requires i >= 3 ==> Fine(rest, i - 3)
    ensures Fine(p, i)
  {
    Parts(rest);
    if i == 1 { ColonHere(p, rest); }
    if i >= 3 && p[i] == PARAM { ColonShift(p, rest, i); }
  }

  lemma Parts(rest: string)
    ensures var p := ['/'] + ([PARAM] + (['p'] + rest));
      |p| == 3 + |rest| && p[0] == '/' && p[1] == PARAM && p[2] == 'p' && p[2..] == ['p'] + rest && p[3..] == rest
  {
  }

  lemma ColonHere(p: string, rest: string)
    requires |p| > 2 && p[2..] == ['p'] + rest && (rest == [] || rest[0] == '/')
    ensures ColonOk(p, 1)
  {
    SegmentIs(p[2..], 1);
    assert p[2] == p[2..][0];
  }

  lemma ColonShift(p: string, rest: string, i: nat)
    requires 3 <= i < |p| && p[3..] == rest && ColonOk(rest, i - 3)
    ensures ColonOk(p, i)
  {
    assert p[i + 1..] == rest[i - 2..];
    assert forall j :: 3 <= j < |p| ==> p[j] == rest[j - 3];
  }

  /** Where the counter does wrap: a path with a multiple of 65536 parameters is accepted, and counts
      as having none. */
  lemma CounterWraps(n: nat)
    requires n > 0 && n % UINT16 == 0
    ensures var p := Segments(n);
      ValidPath(p) && Wildcards(Shape(p)) == n && Wildcards(p) % UINT16 == 0
  {
    var p := Segments(n);
    SegmentsWild(n);
    forall i | 0 <= i < |p| ensures p[i] != ANY && (p[i] == PARAM ==> ColonOk(p, i)) { SegmentsFine(n, i); }
  }
}
