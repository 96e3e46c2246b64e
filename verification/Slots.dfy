/** The parameter slots of a lookup: for which tables some request runs out of them. */
module Slots {
  import opened Shapes
  import opened Trie
  import opened Search

  /** The slots suffice for every route of a table. */
  ghost predicate Covers(table: map<string, Route>, slots: nat) {
    forall s :: s in table ==> Wildcards(s) <= slots
  }

  /** In a shape a slash follows a parameter, and nothing follows a catch-all. */
  ghost predicate Spaced(s: string) {
    forall i :: 0 <= i < |s| - 1 ==> s[i] != ANY && (s[i] == PARAM ==> s[i + 1] == '/')
  }

  lemma SpacedTail(s: string)
    requires Spaced(s) && s != []
    ensures Spaced(s[1..])
  {
    forall i | 0 <= i < |s| - 2 ensures s[1..][i] != ANY && (s[1..][i] == PARAM ==> s[1..][i + 1] == '/') {
      assert s[1..][i] == s[i + 1];
    }
  }

  /** The texts a table of shapes holds. */
  ghost predicate Shaped(table: map<string, Route>) {
    forall s :: s in table ==> Spaced(s) && s != [] && s[0] == '/'
  }

  lemma {:induction false} ShapeSpaced(path: string)
    ensures Spaced(Shape(path))
    ensures path != [] && path[0] == '/' ==> Shape(path) != [] && Shape(path)[0] == '/'
    decreases |path|
  {
    if path != [] && path[0] != ANY {
      ShapeSpaced(if path[0] == PARAM then path[1 + SegmentLength(path[1..])..] else path[1..]);
    }
  }

  /** The wildcard with so many others in front of it. */
  lemma {:induction false} NthWild(s: string, n: nat) returns (k: nat)
    requires n < Wildcards(s)
    ensures k < |s| && IsWild(s[k]) && Wildcards(s[..k]) == n
  {
    if IsWild(s[0]) && n == 0 {
      k := 0;
    } else {
      k := NthWild(s[1..], if IsWild(s[0]) then n - 1 else n);
      assert s[..k + 1] == [s[0]] + s[1..][..k];
      assert s[..k + 1][1..] == s[1..][..k];
      k := k + 1;
    }
  }

  lemma {:induction false} WildIn(s: string, k: nat)
    requires k < |s| && IsWild(s[k])
    ensures Wildcards(s[..k]) < Wildcards(s)
  {
    assert s == s[..k] + s[k..];
    WildcardsAppend(s[..k], s[k..]);
  }

  /** A colon in front of a slash, or of the end, is a segment of its own. */
  lemma ColonSegment(p: string)
    requires p != [] && p[0] == PARAM && (|p| > 1 ==> p[1] == '/')
    ensures SegmentLength(p) == 1
  {
    SegmentIs(p, 1);
  }

  /**
   * A shape read as a request: no static text matches its colons, so no route that matches is preferred to
   * the shape itself, and the shape fits.
   */
  lemma {:induction false} OwnRequest(q: string, x: char, b: string)
    requires IsWild(x) && Spaced(q + [x])
    ensures Rest(q + [x], q + [PARAM]).Some?
    ensures Matches(b, q + [PARAM]) && !(x == ANY && q + [PARAM] <= b) ==> !Before(b, q + [x])
    decreases |q|
  {
    var p, c := q + [PARAM], q + [x];
    if q == [] {
      ColonSegment(p);
      assert c[1..] == [];
    } else {
      var q' := q[1..];
      assert p[1..] == q' + [PARAM] && c[1..] == q' + [x] && c[0] == q[0] == p[0];
      SpacedTail(c);
      assert c[0] != ANY && (c[0] == PARAM ==> c[1] == '/');
      if q[0] == PARAM { ColonSegment(p); }
      OwnRequest(q', x, if b == [] then [] else b[1..]);
      if b != [] && b[0] == q[0] && q' + [PARAM] <= b[1..] { assert b == [b[0]] + b[1..] && p <= b; }
    }
  }

  /** A route with more wildcards than slots lets some request run out of them. */
  lemma SomeRequest(table: map<string, Route>, slots: nat, s: string) returns (path: string)
    requires s in table && Wildcards(s) > slots && Shaped(table)
    ensures path != [] && path[0] == '/' && Overruns(table, path, slots)
  {
    var k := NthWild(s, slots);
    var q := s[..k];
    path := q + [PARAM];
    var r := s;
    if r' :| r' in table && q + [PARAM] <= r' { r := r'; }
    var x := r[k];
    assert r[..k] == q && r[..k + 1] == q + [x];
    assert Spaced(q + [x]) by { assert Spaced(r); }
    hide Spaced, Wildcards, Rest, Before, Matches;
    OwnRequest(q, x, []);
    forall b | b in table && Matches(b, path) ensures !Before(b, q + [x]) { OwnRequest(q, x, b); }
    assert Overrun(table, path, slots, r, k);
  }

  /** No request runs out of slots if and only if they suffice for every route. */
  lemma CoversExactly(table: map<string, Route>, slots: nat)
    requires Shaped(table)
    ensures Covers(table, slots) <==> forall path :: path != [] && path[0] == '/' ==> !Overruns(table, path, slots)
  {
    hide Spaced, Wildcards;
    if !Covers(table, slots) {
      var s :| s in table && Wildcards(s) > slots;
      var path := SomeRequest(table, slots, s);
    } else if path: string, s: string, k: nat :| s in table && Overrun(table, path, slots, s, k) {
      WildIn(s, k);
    }
  }
}
