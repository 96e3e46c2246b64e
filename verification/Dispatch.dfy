/** The router end to end: what a lookup returns after a list of registrations, in terms of the list alone. */
module Dispatch {
  import opened Shapes
  import opened Params
  import opened Trie
  import opened Search
  import opened Slots
  import opened RouteTree
  import opened ParamCount
  import opened E = Engine

  /** A registration: an HTTP method, a pattern and its handlers. */
  datatype Pattern = Pattern(verb: string, path: string, handlers: Handlers)

  /** A registration succeeds when it is well formed and no earlier successful one for the method has the same shape. */
  ghost predicate Accepts(regs: seq<Pattern>, i: nat)
    requires i < |regs|
    decreases i
  {
    && regs[i].verb != "" && regs[i].handlers != [] && ValidPath(regs[i].path)
    && forall j :: 0 <= j < i && Accepts(regs, j) && regs[j].verb == regs[i].verb ==> Shape(regs[j].path) != Shape(regs[i].path)
  }

  /** Pattern `i` is registered for the method. */
  ghost predicate Serves(regs: seq<Pattern>, verb: string, i: nat)
  {
    i < |regs| && Accepts(regs, i) && regs[i].verb == verb
  }

  /** It matches, and is preferred to every other pattern registered for the method that matches. */
  ghost predicate Wins(regs: seq<Pattern>, verb: string, path: string, i: nat) {
    && Serves(regs, verb, i) && Matches(Shape(regs[i].path), path)
    && forall j :: 0 <= j < |regs| && j != i && Serves(regs, verb, j) && Matches(Shape(regs[j].path), path) ==>
         Before(Shape(regs[i].path), Shape(regs[j].path))
  }

  /** The table of a method after the registrations. */
  ghost function TableOf(regs: seq<Pattern>, verb: string): map<string, Route> {
    if regs == [] then map[] else
    var t, p := TableOf(regs[..|regs| - 1], verb), regs[|regs| - 1];
    if p.verb == verb && Takes(t, p) then t[Shape(p.path) := RouteFor(p)] else t
  }

  ghost predicate Takes(t: map<string, Route>, p: Pattern) {
    p.verb != "" && p.handlers != [] && ValidPath(p.path) && Shape(p.path) !in t
  }

  function RouteFor(p: Pattern): Route { Route(p.handlers, p.path, Names(p.path)) }

  lemma {:induction false} AcceptsPrefix(regs: seq<Pattern>, n: nat, i: nat)
    requires i < n <= |regs|
    ensures Accepts(regs[..n], i) == Accepts(regs, i)
    decreases i
  {
    forall j | 0 <= j < i ensures Accepts(regs[..n], j) == Accepts(regs, j) { AcceptsPrefix(regs, n, j); }
  }

  /** Whether a registration succeeds is read off the table of the earlier ones. */
  lemma {:induction false} AcceptsLast(regs: seq<Pattern>)
    requires regs != []
    ensures var n := |regs| - 1; Accepts(regs, n) <==> Takes(TableOf(regs[..n], regs[n].verb), regs[n])
    decreases |regs|, 0
  {
    hide Shape, ValidPath, Names;
    var n := |regs| - 1;
    var init, p := regs[..n], regs[n];
    forall i | 0 <= i < n ensures Accepts(init, i) == Accepts(regs, i) { AcceptsPrefix(regs, n, i); }
    forall i | 0 <= i < n && Accepts(regs, i) && regs[i].verb == p.verb ensures Shape(regs[i].path) in TableOf(init, p.verb) {
      TableHas(init, p.verb, i);
    }
    if Shape(p.path) in TableOf(init, p.verb) {
      var i := TableFrom(init, p.verb, Shape(p.path));
      assert Accepts(regs, i) && init[i] == regs[i];
    }
  }

  /** The table holds every pattern registered for the method... */
  lemma {:induction false} TableHas(regs: seq<Pattern>, verb: string, i: nat)
    requires Serves(regs, verb, i)
    ensures var s, t := Shape(regs[i].path), TableOf(regs, verb); s in t && t[s] == RouteFor(regs[i])
    decreases |regs|, 1
  {
    hide Shape, ValidPath, Names;
    var n := |regs| - 1;
    AcceptsLast(regs);
    if i < n {
      AcceptsPrefix(regs, n, i);
      TableHas(regs[..n], verb, i);
    }
  }

  /** ... and nothing else. */
  lemma {:induction false} TableFrom(regs: seq<Pattern>, verb: string, s: string) returns (i: nat)
    requires s in TableOf(regs, verb)
    ensures Serves(regs, verb, i) && Shape(regs[i].path) == s
    decreases |regs|, 1
  {
    hide Shape, ValidPath, Names;
    var n := |regs| - 1;
    AcceptsLast(regs);
    if s in TableOf(regs[..n], verb) {
      i := TableFrom(regs[..n], verb, s);
      AcceptsPrefix(regs, n, i);
    } else {
      i := n;
    }
  }

  /** At most one pattern wins. */
  lemma OneWinner(regs: seq<Pattern>, verb: string, path: string, i: nat, j: nat)
    requires Wins(regs, verb, path, i) && Wins(regs, verb, path, j)
    ensures i == j
  {
    hide Shape, ValidPath, Matches;
    if i != j {
      var a, b := Shape(regs[i].path), Shape(regs[j].path);
      assert i < j ==> a != b;
      assert j < i ==> a != b;
      BeforeTotal(a, b, path);
    }
  }

  /** The best route of a table is the pattern that wins in the list. */
  lemma BestWins(regs: seq<Pattern>, verb: string, path: string, best: string) returns (i: nat)
    requires BestIn(TableOf(regs, verb), path, best)
    ensures Wins(regs, verb, path, i) && Shape(regs[i].path) == best && TableOf(regs, verb)[best] == RouteFor(regs[i])
  {
    hide Shape, ValidPath, Names, Matches, Before, TableOf;
    i := TableFrom(regs, verb, best);
    TableHas(regs, verb, i);
    forall j | 0 <= j < |regs| && j != i && Serves(regs, verb, j) && Matches(Shape(regs[j].path), path)
      ensures Before(best, Shape(regs[j].path))
    {
      TableHas(regs, verb, j);
      assert i < j || j < i;
      assert Shape(regs[j].path) != best;
    }
  }

  // ---------- the slots of a lookup ----------

  /** The capacity after the registrations, of all methods: the largest count, in 16 bits, of an accepted path. */
  ghost function Capacity(regs: seq<Pattern>): nat {
    if regs == [] then 0 else
    var n := |regs| - 1;
    var before, count := Capacity(regs[..n]), Wildcards(regs[n].path) % UINT16;
    if Accepts(regs, n) && count > before then count else before
  }

  lemma {:induction false} CapacityIsLargest(regs: seq<Pattern>)
    ensures forall i :: 0 <= i < |regs| && Accepts(regs, i) ==> Wildcards(regs[i].path) % UINT16 <= Capacity(regs)
    ensures Capacity(regs) == 0 || exists i :: 0 <= i < |regs| && Accepts(regs, i) && Wildcards(regs[i].path) % UINT16 == Capacity(regs)
    decreases |regs|
  {
    hide Accepts, Wildcards;
    if regs != [] {
      var n := |regs| - 1;
      var init := regs[..n];
      CapacityIsLargest(init);
      forall i | 0 <= i < n ensures Accepts(init, i) == Accepts(regs, i) { AcceptsPrefix(regs, n, i); }
      forall i | 0 <= i < n && Accepts(regs, i) ensures Wildcards(regs[i].path) % UINT16 <= Capacity(regs) {
        assert init[i] == regs[i];
      }
      if Capacity(init) != 0 {
        var i :| 0 <= i < n && Accepts(init, i) && Wildcards(init[i].path) % UINT16 == Capacity(init);
        assert Accepts(regs, i) && regs[i] == init[i];
      }
    }
  }

  /** The slots suffice for every pattern registered for the method. */
  ghost predicate Enough(regs: seq<Pattern>, verb: string, slots: nat) {
    forall i :: 0 <= i < |regs| && Serves(regs, verb, i) ==> Wildcards(Shape(regs[i].path)) <= slots
  }

  /** No path registered for the method makes the counter wrap. */
  ghost predicate Countable(regs: seq<Pattern>, verb: string) {
    forall i :: 0 <= i < |regs| && Serves(regs, verb, i) ==> Wildcards(regs[i].path) < UINT16
  }

  /** Up to the wildcard at `k`, which has no slot, pattern `i` fits the path, and no matching pattern is preferred to it. */
  ghost predicate Exceeds(regs: seq<Pattern>, verb: string, path: string, slots: nat, i: nat, k: nat) {
    && Serves(regs, verb, i) && var s := Shape(regs[i].path);
    && k < |s| && IsWild(s[k]) && Wildcards(s[..k]) == slots && Rest(s[..k + 1], path).Some?
    && forall j :: 0 <= j < |regs| && Serves(regs, verb, j) && Matches(Shape(regs[j].path), path) ==> !Before(Shape(regs[j].path), s[..k + 1])
  }

  ghost predicate SomeExceeds(regs: seq<Pattern>, verb: string, path: string, slots: nat) {
    exists i: nat, k: nat :: Exceeds(regs, verb, path, slots, i, k)
  }

  lemma ExceedsInTable(regs: seq<Pattern>, verb: string, path: string, slots: nat)
    ensures SomeExceeds(regs, verb, path, slots) <==> Overruns(TableOf(regs, verb), path, slots)
  {
    hide Shape, ValidPath, Names, Matches, Before, TableOf, Wildcards, Rest, Accepts;
    var table := TableOf(regs, verb);
    forall j | 0 <= j < |regs| && Serves(regs, verb, j) ensures Shape(regs[j].path) in table { TableHas(regs, verb, j); }
    forall s | s in table ensures exists j :: 0 <= j < |regs| && Serves(regs, verb, j) && Shape(regs[j].path) == s {
      var j := TableFrom(regs, verb, s);
      assert Serves(regs, verb, j) && Shape(regs[j].path) == s;
    }
    if i: nat, k: nat :| Exceeds(regs, verb, path, slots, i, k) {
      assert Overrun(table, path, slots, Shape(regs[i].path), k);
    }
    if s, k: nat :| s in table && Overrun(table, path, slots, s, k) {
      var i := TableFrom(regs, verb, s);
      assert Exceeds(regs, verb, path, slots, i, k);
    }
  }

  lemma EnoughInTable(regs: seq<Pattern>, verb: string, slots: nat)
    ensures Enough(regs, verb, slots) <==> Covers(TableOf(regs, verb), slots)
    ensures Shaped(TableOf(regs, verb))
  {
    hide Shape, Names, Matches, Before, TableOf, Wildcards, Rest, Spaced;
    var table := TableOf(regs, verb);
    forall j | 0 <= j < |regs| && Serves(regs, verb, j) ensures Shape(regs[j].path) in table { TableHas(regs, verb, j); }
    forall s | s in table ensures exists j :: 0 <= j < |regs| && Serves(regs, verb, j) && Shape(regs[j].path) == s {
      var j := TableFrom(regs, verb, s);
      assert Serves(regs, verb, j) && Shape(regs[j].path) == s;
    }
    forall s | s in table ensures Spaced(s) && s != [] && s[0] == '/' {
      var j := TableFrom(regs, verb, s);
      ShapeSpaced(regs[j].path);
    }
  }

  /** No request of the method runs out of slots if and only if every pattern registered for it has enough. */
  lemma NeverExceeds(regs: seq<Pattern>, verb: string, slots: nat)
    ensures Enough(regs, verb, slots) <==> forall path :: path != [] && path[0] == '/' ==> !SomeExceeds(regs, verb, path, slots)
  {
    hide Enough, SomeExceeds, Covers, Overruns, Shaped, TableOf;
    forall path ensures SomeExceeds(regs, verb, path, slots) <==> Overruns(TableOf(regs, verb), path, slots) {
      ExceedsInTable(regs, verb, path, slots);
    }
    EnoughInTable(regs, verb, slots);
    CoversExactly(TableOf(regs, verb), slots);
  }

  /** The capacity is enough for a method none of whose paths makes the counter wrap. */
  lemma CountableEnough(regs: seq<Pattern>, verb: string, slots: nat)
    requires Countable(regs, verb) && Capacity(regs) <= slots
    ensures Enough(regs, verb, slots)
  {
    hide Shape, ValidPath, Wildcards;
    CapacityIsLargest(regs);
    forall i | 0 <= i < |regs| && Serves(regs, verb, i) ensures Wildcards(Shape(regs[i].path)) <= slots {
      CounterCovers(regs[i].path);
    }
  }

  /**
   * Registers the patterns in order, for all their methods, and serves a path of one method. The handlers,
   * the full path and the parameters are those of the one winning pattern; without a match there are
   * none. The lookup panics if and only if it meets a wildcard for which there is no slot.
   */
  method RegisterAndServe(regs: seq<Pattern>, verb: string, path: string, params: ParamList)
    returns (handlers: Handlers, fullPath: string, panics: bool, ghost i: nat)
    requires params.len == 0
    modifies params, params.buf
    ensures params.buf.Length == if old(params.buf.Length) < Capacity(regs) then Capacity(regs) else old(params.buf.Length)
    ensures panics <==> SomeExceeds(regs, verb, path, params.buf.Length)
    ensures Countable(regs, verb) ==> !panics
    ensures !panics && handlers == [] ==> params.len == 0 && forall k :: 0 <= k < |regs| && Serves(regs, verb, k) ==> !Matches(Shape(regs[k].path), path)
    ensures !panics && handlers != [] ==>
      && Wins(regs, verb, path, i) && handlers == regs[i].handlers && fullPath == regs[i].path
      && var values := Captures(Shape(fullPath), path);
      && params.len == |values| == |Names(fullPath)| <= params.buf.Length
      && (forall k :: 0 <= k < params.len ==> params.buf[k].key == Names(fullPath)[k] && params.buf[k].value == values[k])
      && Substitute(fullPath, values) == path
      && (AllDifferent(Names(fullPath)) ==> Filled(fullPath, params.buf[..params.len]) == path)
  {
    hide Router.Valid, ValidPath, Shape, Names, Wildcards, Table, Captures, Substitute, Matches, Accepts, Wins, TableOf, BestIn, Serves, Countable, Enough,
         SomeExceeds, Overruns, Capacity, Grown;
    var e := Register(regs, verb);
    if Countable(regs, verb) { CountableEnough(regs, verb, e.maxParams); }
    ghost var best;
    handlers, fullPath, panics, best := e.Serve(path, params);
    ExceedsInTable(regs, verb, path, params.buf.Length);
    i := 0;
    if !panics && handlers == [] {
      forall k | 0 <= k < |regs| && Serves(regs, verb, k) ensures !Matches(Shape(regs[k].path), path) { TableHas(regs, verb, k); }
    }
    if !panics && handlers != [] {
      i := BestWins(regs, verb, path, best);
      WinnerMatches(regs, verb, path, i);
      if AllDifferent(Names(fullPath)) { FilledIsPath(fullPath, path, params.buf[..params.len]); }
    }
  }

  lemma WinnerMatches(regs: seq<Pattern>, verb: string, path: string, i: nat)
    requires Wins(regs, verb, path, i)
    ensures i < |regs| && Matches(Shape(regs[i].path), path)
  {
  }

  /** The engine after the registrations; its capacity suffices exactly when it does for every pattern of the method. */
  method Register(regs: seq<Pattern>, verb: string) returns (e: Engine)
    ensures fresh(e) && fresh(e.router) && fresh(e.router.root) && fresh(e.router.x.text.Keys)
    ensures e.Valid() && e.own == verb && Routes(e.router.x) == TableOf(regs, verb)
    ensures e.maxParams == Capacity(regs)
    ensures e.Covered() <==> Enough(regs, verb, e.maxParams)
  {
    hide Router.Valid, ValidPath, Shape, Names, Wildcards, Table, Accepts, Grown, Engine.Covered, Enough;
    Nothing(verb);
    assert regs[..0] == [];
    e := new Engine(verb);
    hide TableOf, Capacity;
    for k := 0 to |regs|
      invariant fresh(e) && fresh(e.router) && fresh(e.router.root) && fresh(e.router.x.text.Keys)
      invariant e.Valid() && e.own == verb && Routes(e.router.x) == TableOf(regs[..k], verb)
      invariant forall m :: e.Shapes(m) == TableOf(regs[..k], m).Keys
      invariant e.maxParams == Capacity(regs[..k])
    {
      var p := regs[k];
      ghost var init := regs[..k + 1];
      assert init[..k] == regs[..k] && init[k] == p;
      OneMoreTaken(init, verb);
      var r := e.AddRoute(p.verb, p.path, p.handlers);
    }
    assert regs[..|regs|] == regs;
    e.CoveredExactly();
    EnoughInTable(regs, verb, e.maxParams);
  }

  lemma Nothing(verb: string)
    ensures Capacity([]) == 0 && forall m :: TableOf([], m) == map[]
  {
  }

  /** One more registration. */
  lemma OneMoreTaken(regs: seq<Pattern>, verb: string)
    requires regs != []
    ensures var init, p := regs[..|regs| - 1], regs[|regs| - 1];
      var taken, count := Takes(TableOf(init, p.verb), p), Wildcards(p.path) % UINT16;
      && Capacity(regs) == (if taken && count > Capacity(init) then count else Capacity(init))
      && TableOf(regs, verb) == (if p.verb == verb && taken then TableOf(init, verb)[Shape(p.path) := RouteFor(p)] else TableOf(init, verb))
      && (forall m :: TableOf(regs, m).Keys == TableOf(init, m).Keys + if m == p.verb && taken then {Shape(p.path)} else {})
  {
    hide Shape, Names, Wildcards, ValidPath, Takes;
    AcceptsLast(regs);
  }

  // ---------- a lookup that panics ----------

  lemma {:induction false} PrefixNotBefore(a: string, s: string)
    requires a <= s
    ensures !Before(s, a)
  {
    if a != [] { PrefixNotBefore(a[1..], s[1..]); }
  }

  /** A lone pattern with more wildcards than slots runs out of them on every path it matches. */
  lemma LonePattern(p: Pattern, path: string, slots: nat)
    requires p.verb != "" && p.handlers != [] && ValidPath(p.path)
    requires Matches(Shape(p.path), path) && slots < Wildcards(Shape(p.path))
    ensures SomeExceeds([p], p.verb, path, slots)
  {
    var s, regs := Shape(p.path), [p];
    var k := NthWild(s, slots);
    hide Shape, ValidPath, Wildcards, Before;
    FitsFrom(s[..k + 1], s, path);
    PrefixNotBefore(s[..k + 1], s);
    assert Serves(regs, p.verb, 0);
    assert Exceeds(regs, p.verb, path, slots, 0, k);
  }

  /** An engine whose only path has a multiple of 65536 parameters makes no room, and panics on a path it should serve. */
  method WrappedPanics(verb: string, n: nat, h: Handlers) returns (panics: bool)
    requires verb != "" && h != [] && n > 0 && n % UINT16 == 0
    ensures panics
  {
    hide SomeExceeds, Capacity, Wins, Serves, Countable, Matches, Shape, ValidPath, Wildcards, Captures, Names, Substitute, Segments;
    var path := Segments(n);
    var p := Pattern(verb, path, h);
    CounterWraps(n);
    SegmentsMatch(n);
    NoRoom(p);
    LonePattern(p, path, 0);
    var params := new ParamList(0);
    var handlers, fullPath;
    ghost var i;
    handlers, fullPath, panics, i := RegisterAndServe([p], verb, path, params);
  }

  lemma NoRoom(p: Pattern)
    requires Wildcards(p.path) % UINT16 == 0
    ensures Capacity([p]) == 0
  {
    assert [p][..0] == [];
  }
}
