/** Route patterns as text. A registered path such as `/users/:id/books` is reduced to its shape
    `/users/:/books`, in which every wildcard is one character, and a separate list of names.
    This module says what it means for a shape to match a request path, which values are captured,
    and when one shape is preferred to another. Nothing here knows about the routing tree. */
module Shapes {

  import opened Options

  const PARAM := ':'
  const ANY := '*'

  predicate IsWild(c: char) { c == PARAM || c == ANY }

  /** Search order of the alternatives at one point of a path: static text, parameter, catch-all. */
  function Rank(c: char): nat { if c == PARAM then 1 else if c == ANY then 2 else 0 }

  /** The number of characters before the first slash (all of them when there is none). */
  function SegmentLength(p: string): (n: nat)
    ensures n <= |p|
    ensures forall i :: 0 <= i < n ==> p[i] != '/'
    ensures n < |p| ==> p[n] == '/'
  {
    if p == [] || p[0] == '/' then 0 else 1 + SegmentLength(p[1..])
  }

  // ---------- registered paths ----------

  ghost predicate ColonOk(path: string, i: nat)
    requires i < |path|
  {
    && i + 1 < |path| && path[i + 1] != '/'
    && var n := SegmentLength(path[i + 1..]);
       forall j :: i < j < i + 1 + n ==> !IsWild(path[j])
  }

  ghost predicate StarOk(path: string, i: nat)
    requires i < |path|
  {
    && i + 1 < |path|
    && (i > 0 ==> path[i - 1] == '/')
    && forall j :: i <= j < |path| ==> path[j] != '/'
  }

  /** The paths a router accepts: rooted, every wildcard named, one per segment, catch-all last. */
  ghost predicate ValidPath(path: string)
  {
    && path != [] && path[0] == '/'
    && (forall i :: 0 <= i < |path| && path[i] == PARAM ==> ColonOk(path, i))
    && (forall i :: 0 <= i < |path| && path[i] == ANY ==> StarOk(path, i))
  }

  /** The path with every parameter name erased. */
  function Shape(path: string): string
    decreases |path|
  {
    if path == [] then []
    else if path[0] == PARAM then [PARAM] + Shape(path[1 + SegmentLength(path[1..])..])
    else if path[0] == ANY then [ANY]
    else [path[0]] + Shape(path[1..])
  }

  /** The parameter names, in order. */
  function Names(path: string): seq<string>
    decreases |path|
  {
    if path == [] then []
    else if path[0] == PARAM then
      var n := SegmentLength(path[1..]);
      [path[1..1 + n]] + Names(path[1 + n..])
    else if path[0] == ANY then [path[1..]]
    else Names(path[1..])
  }

  function Wildcards(s: string): nat
  {
    if s == [] then 0 else (if IsWild(s[0]) then 1 else 0) + Wildcards(s[1..])
  }

  // ---------- matching ----------

  /** What is left of `p` after the shape `s` has consumed its part, if it can. A parameter needs a
      non-empty remainder but may itself capture the empty string in front of a slash. */
  function Rest(s: string, p: string): Option<string>
    decreases |s|
  {
    if s == [] then Some(p)
    else if s[0] == PARAM then
      if p == [] then None else Rest(s[1..], p[SegmentLength(p)..])
    else if s[0] == ANY then Rest(s[1..], [])
    else if p == [] || p[0] != s[0] then None
    else Rest(s[1..], p[1..])
  }

  /** The values captured while `s` consumes its part of `p`. */
  function Captures(s: string, p: string): seq<string>
    decreases |s|
  {
    if s == [] then []
    else if s[0] == PARAM then
      var n := SegmentLength(p);
      [p[..n]] + Captures(s[1..], p[n..])
    else if s[0] == ANY then [p] + Captures(s[1..], [])
    else if p == [] then [] else Captures(s[1..], p[1..])
  }

  predicate Matches(s: string, p: string) { Rest(s, p) == Some([]) }

  /** The registered path with its wildcards replaced by values. */
  function Substitute(path: string, values: seq<string>): string
    decreases |path|
  {
    if path == [] then []
    else if path[0] == PARAM then
      var rest := path[1 + SegmentLength(path[1..])..];
      if values == [] then Substitute(rest, []) else values[0] + Substitute(rest, values[1..])
    else if path[0] == ANY then (if values == [] then [] else values[0])
    else [path[0]] + Substitute(path[1..], values)
  }

  // ---------- preference ----------

  /** `a` is preferred to `b`: a proper prefix, or better ranked at the first difference. */
  predicate Before(a: string, b: string)
  {
    if b == [] then false
    else if a == [] then true
    else if a[0] == b[0] then Before(a[1..], b[1..])
    else Rank(a[0]) < Rank(b[0])
  }

  /** `s` is still ahead of a search that stands at `b` and has tried the alternatives of rank
      below `k` there: `s` continues `b` with an alternative of rank at least `k` (`k == 0` allows
      `s == b`), or leaves `b` at some point for a worse ranked alternative. */
  predicate Later(b: string, k: nat, s: string)
  {
    if b == [] then k == 0 || (s != [] && Rank(s[0]) >= k)
    else s != [] && (if s[0] == b[0] then Later(b[1..], k, s[1..]) else Rank(s[0]) > Rank(b[0]))
  }

  // ---------- lemmas ----------

  lemma {:induction false} SegmentIs(p: string, n: nat)
    requires n <= |p| && (forall k :: 0 <= k < n ==> p[k] != '/') && (n < |p| ==> p[n] == '/')
    ensures SegmentLength(p) == n
  {
    if n > 0 { SegmentIs(p[1..], n - 1); }
  }

  lemma {:induction false} RestAppend(s: string, t: string, p: string)
    ensures Rest(s + t, p) == if Rest(s, p).None? then None else Rest(t, Rest(s, p).value)
    ensures Rest(s, p).Some? ==> Captures(s + t, p) == Captures(s, p) + Captures(t, Rest(s, p).value)
    decreases |s|
  {
    if s == [] {
      assert s + t == t;
    } else {
      assert (s + t)[1..] == s[1..] + t;
      if s[0] == PARAM {
        RestAppend(s[1..], t, p[SegmentLength(p)..]);
      } else if s[0] == ANY {
        RestAppend(s[1..], t, []);
      } else if p != [] && p[0] == s[0] {
        RestAppend(s[1..], t, p[1..]);
      }
    }
  }

  /** Static text consumes exactly itself and captures nothing. */
  lemma {:induction false} RestStatic(x: string, p: string)
    requires forall i :: 0 <= i < |x| ==> !IsWild(x[i])
    ensures Rest(x, p) == if x <= p then Some(p[|x|..]) else None
    ensures x <= p ==> Captures(x, p) == []
  {
    if x != [] && p != [] && p[0] == x[0] {
      RestStatic(x[1..], p[1..]);
      assert x == [x[0]] + x[1..];
      assert p == [p[0]] + p[1..];
      if x <= p { assert x[1..] <= p[1..]; assert p[|x|..] == p[1..][|x[1..]|..]; }
      if x[1..] <= p[1..] { assert x <= p; }
    }
  }

  /** One value per wildcard, and the consumed part is never longer than the path. */
  lemma {:induction false} CapturesCount(s: string, p: string)
    requires Rest(s, p).Some?
    ensures |Captures(s, p)| == Wildcards(s)
    ensures |Rest(s, p).value| <= |p|
    ensures Rest(s, p).value == p[|p| - |Rest(s, p).value|..]
    decreases |s|
  {
    hide SegmentLength;
    if s != [] {
      if s[0] == PARAM {
        var n := SegmentLength(p);
        CapturesCount(s[1..], p[n..]);
        Suffix(p, n, Rest(s[1..], p[n..]).value);
      } else if s[0] == ANY {
        CapturesCount(s[1..], []);
      } else {
        CapturesCount(s[1..], p[1..]);
        Suffix(p, 1, Rest(s[1..], p[1..]).value);
      }
    }
  }

  /** The end of a rest is the end of the whole. */
  lemma Suffix(p: string, n: nat, r: string)
    requires n <= |p| && |r| <= |p| - n && r == p[n..][|p| - n - |r|..]
    ensures r == p[|p| - |r|..]
  {
  }

  lemma {:induction false} WildcardsAppend(s: string, t: string)
    ensures Wildcards(s + t) == Wildcards(s) + Wildcards(t)
  {
    if s == [] { assert s + t == t; }
    else { assert (s + t)[1..] == s[1..] + t; WildcardsAppend(s[1..], t); }
  }

  lemma {:induction false} NamesCount(path: string)
    ensures |Names(path)| == Wildcards(Shape(path))
    decreases |path|
  {
    if path != [] {
      if path[0] == PARAM { NamesCount(path[1 + SegmentLength(path[1..])..]); }
      else if path[0] != ANY { NamesCount(path[1..]); }
    }
  }

  /** Putting the captured values back into the registered path gives the request path. */
  lemma {:induction false} SubstituteCaptures(path: string, p: string)
    requires Matches(Shape(path), p)
    ensures Substitute(path, Captures(Shape(path), p)) == p
    decreases |path|
  {
    if path != [] {
      var s := Shape(path);
      if path[0] == PARAM {
        var n := SegmentLength(p);
        assert s[1..] == Shape(path[1 + SegmentLength(path[1..])..]);
        SubstituteCaptures(path[1 + SegmentLength(path[1..])..], p[n..]);
        assert p == p[..n] + p[n..];
      } else if path[0] != ANY {
        assert s[1..] == Shape(path[1..]);
        SubstituteCaptures(path[1..], p[1..]);
      }
    }
  }

  /** Two different shapes that match the same path are always comparable, one way only. */
  lemma {:induction false} BeforeTotal(a: string, b: string, p: string)
    requires Matches(a, p) && Matches(b, p) && a != b
    ensures Before(a, b) != Before(b, a)
    decreases |a|
  {
    if a != [] && b != [] && a[0] == b[0] {
      assert a == [a[0]] + a[1..] && b == [b[0]] + b[1..];
      if a[0] == PARAM { BeforeTotal(a[1..], b[1..], p[SegmentLength(p)..]); }
      else if a[0] == ANY { BeforeTotal(a[1..], b[1..], []); }
      else { BeforeTotal(a[1..], b[1..], p[1..]); }
    }
  }

  lemma {:induction false} LaterSplit(b: string, x: string, k: nat, s: string)
    ensures Later(b + x, k, s) == if b <= s then Later(x, k, s[|b|..]) else Later(b, 0, s)
  {
    if b == [] {
      assert b + x == x;
    } else {
      assert (b + x)[1..] == b[1..] + x;
      if s != [] && s[0] == b[0] {
        LaterSplit(b[1..], x, k, s[1..]);
        assert b <= s <==> b[1..] <= s[1..] by {
          assert b == [b[0]] + b[1..] && s == [s[0]] + s[1..];
        }
        if b <= s { assert s[|b|..] == s[1..][|b[1..]|..]; }
      }
    }
  }

  /** The same with nothing appended: how a position in the search reads once `b` is a prefix. */
  lemma LaterAt(b: string, k: nat, s: string)
    ensures Later(b, k, s) ==
      if b <= s then k == 0 || (|s| > |b| && Rank(s[|b|]) >= k) else Later(b, 0, s)
  {
    LaterSplit(b, [], k, s);
    assert b + [] == b;
  }

  /** A shape standing where the search stands is preferred to everything still ahead of it. */
  lemma {:induction false} LaterBefore(b: string, s: string)
    requires Later(b, 0, s) && s != b
    ensures Before(b, s)
  {
    if b != [] && s[0] == b[0] {
      assert b == [b[0]] + b[1..] && s == [s[0]] + s[1..];
      LaterBefore(b[1..], s[1..]);
    }
  }

  // ---------- what the functions mean for patterns ----------

  /** A shape with the names put back behind its wildcards. */
  function Spell(s: string, names: seq<string>): string
    decreases |s|
  {
    if s == [] then []
    else if s[0] == PARAM then [PARAM] + (if names == [] then [] else names[0] + Spell(s[1..], names[1..]))
    else if s[0] == ANY then [ANY] + (if names == [] then [] else names[0])
    else [s[0]] + Spell(s[1..], names)
  }

  lemma Pieces(path: string, n: nat)
    requires n < |path|
    ensures path == [path[0]] + (path[1..1 + n] + path[1 + n..]) && path == [path[0]] + path[1..]
  {
  }

  lemma SpellParam(path: string, n: nat)
    requires path != [] && path[0] == PARAM && n == SegmentLength(path[1..])
    ensures Spell(Shape(path), Names(path)) == [PARAM] + (path[1..1 + n] + Spell(Shape(path[1 + n..]), Names(path[1 + n..])))
  {
    var s, names := Shape(path[1 + n..]), Names(path[1 + n..]);
    assert ([PARAM] + s)[1..] == s && ([path[1..1 + n]] + names)[1..] == names;
  }

  lemma SpellText(path: string)
    requires path != [] && !IsWild(path[0])
    ensures Spell(Shape(path), Names(path)) == [path[0]] + Spell(Shape(path[1..]), Names(path[1..]))
  {
    assert Shape(path)[1..] == Shape(path[1..]);
  }

  /** Shape and names together are the registered path. */
  lemma {:induction false} ShapeAndNames(path: string)
    ensures Spell(Shape(path), Names(path)) == path
    decreases |path|
  {
    if path != [] && path[0] != ANY {
      hide Shape, Names, Spell;
      if path[0] == PARAM {
        var n := SegmentLength(path[1..]);
        SpellParam(path, n);
        ShapeAndNames(path[1 + n..]);
        Pieces(path, n);
      } else {
        SpellText(path);
        ShapeAndNames(path[1..]);
      }
    } else if path != [] {
      Pieces(path, 0);
    }
  }

  /** Values the wildcards of a pattern may take: no slash in a parameter, nothing empty at the end of the
      pattern, and anything for a catch-all. */
  ghost predicate Admits(path: string, values: seq<string>)
    decreases |path|
  {
    if path == [] then values == []
    else if path[0] == PARAM then
      var rest := path[1 + SegmentLength(path[1..])..];
      values != [] && '/' !in values[0] && (rest == [] ==> values[0] != []) && Admits(rest, values[1..])
    else if path[0] == ANY then |values| == 1
    else Admits(path[1..], values)
  }

  lemma Valued(p: string, value: string, tail: string)
    requires p == value + tail && '/' !in value && (tail != [] ==> tail[0] == '/')
    ensures SegmentLength(p) == |value| && p[..|value|] == value && p[|value|..] == tail
  {
    SegmentIs(p, |value|);
  }

  /** A pattern matches what it reads as with admissible values, and captures these. */
  lemma {:induction false} AdmittedMatch(path: string, values: seq<string>)
    requires Admits(path, values)
    ensures var p := Substitute(path, values); Matches(Shape(path), p) && Captures(Shape(path), p) == values
    decreases |path|
  {
    if path != [] {
      var s, p := Shape(path), Substitute(path, values);
      if path[0] == PARAM {
        var n := SegmentLength(path[1..]);
        var rest, tail := path[1 + n..], Substitute(path[1 + n..], values[1..]);
        AdmittedMatch(rest, values[1..]);
        assert s[1..] == Shape(rest) && p == values[0] + tail;
        Valued(p, values[0], tail);
        assert values == [values[0]] + values[1..];
      } else if path[0] == ANY {
        assert s[1..] == [];
      } else {
        AdmittedMatch(path[1..], values);
        assert s[1..] == Shape(path[1..]) && p[1..] == Substitute(path[1..], values);
      }
    }
  }

  lemma {:induction false} CapturesAdmitted(path: string, p: string)
    requires Matches(Shape(path), p)
    ensures Admits(path, Captures(Shape(path), p))
    decreases |path|
  {
    if path != [] {
      var s := Shape(path);
      if path[0] == PARAM {
        var n := SegmentLength(p);
        assert s[1..] == Shape(path[1 + SegmentLength(path[1..])..]);
        CapturesAdmitted(path[1 + SegmentLength(path[1..])..], p[n..]);
        assert Captures(s, p)[1..] == Captures(s[1..], p[n..]);
      } else if path[0] == ANY {
        assert s[1..] == [];
      } else {
        assert s[1..] == Shape(path[1..]);
        CapturesAdmitted(path[1..], p[1..]);
      }
    }
  }

  /** A pattern matches exactly the paths it reads as with admissible values, and these are unique. */
  lemma MatchesExactly(path: string, p: string)
    ensures Matches(Shape(path), p) <==> exists values :: Admits(path, values) && Substitute(path, values) == p
    ensures forall values :: Admits(path, values) && Substitute(path, values) == p ==> values == Captures(Shape(path), p)
  {
    if Matches(Shape(path), p) {
      CapturesAdmitted(path, p);
      SubstituteCaptures(path, p);
    }
    forall values | Admits(path, values) && Substitute(path, values) == p
      ensures Matches(Shape(path), p) && values == Captures(Shape(path), p)
    {
      AdmittedMatch(path, values);
    }
  }

  /** At the first difference text comes before a wildcard, and a parameter before a catch-all. */
  ghost predicate Sooner(x: char, y: char) { (!IsWild(x) && IsWild(y)) || (x == PARAM && y == ANY) }

  /** One shape is preferred to another exactly when it is a proper prefix, or comes sooner at the first difference. */
  lemma {:induction false} BeforeMeans(a: string, b: string)
    ensures Before(a, b) <==> a < b || exists k :: 0 <= k < |a| && k < |b| && a[..k] == b[..k] && Sooner(a[k], b[k])
  {
    if a != [] && b != [] && a[0] == b[0] {
      BeforeMeans(a[1..], b[1..]);
      assert a == [a[0]] + a[1..] && b == [b[0]] + b[1..];
      if k :| 0 <= k < |a[1..]| && k < |b[1..]| && a[1..][..k] == b[1..][..k] && Sooner(a[1..][k], b[1..][k]) {
        assert a[..k + 1] == [a[0]] + a[1..][..k] && b[..k + 1] == [b[0]] + b[1..][..k];
        assert Sooner(a[k + 1], b[k + 1]);
      }
      if k :| 0 <= k < |a| && k < |b| && a[..k] == b[..k] && Sooner(a[k], b[k]) {
        assert k > 0 && a[1..][..k - 1] == a[..k][1..] && b[1..][..k - 1] == b[..k][1..];
        assert Sooner(a[1..][k - 1], b[1..][k - 1]);
      }
    } else if a != [] && b != [] {
      assert Before(a, b) ==> a[..0] == b[..0] && Sooner(a[0], b[0]);
    }
  }
}
