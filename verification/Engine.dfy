/** The engine: one routing tree for each HTTP method, and the parameter capacity all of them share. */
module Engine {
  import opened Shapes
  import opened Params
  import opened Trie
  import opened Search
  import opened Slots
  import opened RouteTree
  import opened ParamCount

  /** How a registration ends. Everything but `Registered` is a panic of the source. */
  datatype Registration = Registered | BadArgument | Refused(why: Outcome)

  lemma NeedsSlash(path: string)
    ensures ValidPath(path) ==> path != [] && path[0] == '/'
  {
  }

  /** A registration brings in prefixes of its own shape, which is a route afterwards. */
  lemma StaysGrown(t: Tree, t': Tree, shape: string, none: bool)
    requires Grown(t) && forall s :: s in t' ==> s in t || (!none && s <= shape)
    requires forall r :: r in Table(t) ==> r in Table(t')
    requires none || shape in Table(t')
    ensures Grown(t')
  {
    hide Table;
    forall s | s in t' ensures exists r :: r in Table(t') && s <= r {
      if s in t { var r :| r in Table(t) && s <= r; }
    }
  }

  /** A path whose wildcard characters the counter can hold keeps the slots sufficient. */
  lemma StaysCovered(table: map<string, Route>, slots: nat, path: string, route: Route, slots': nat)
    requires Covers(table, slots) && slots <= slots' && ValidPath(path)
    ensures Covers(table, slots')
    ensures Wildcards(path) < UINT16 && Wildcards(path) % UINT16 <= slots' ==> Covers(table[Shape(path) := route], slots')
  {
    CounterCovers(path);
    hide Wildcards, Shape, ValidPath;
  }

  lemma WildcardsPrefix(a: string, b: string)
    requires a <= b
    ensures Wildcards(a) <= Wildcards(b)
  {
    assert b == a + b[|a|..];
    WildcardsAppend(a, b[|a|..]);
  }

  /**
   * The engine as one HTTP method sees it: that method's tree is linked nodes, the trees of the other
   * methods are the shapes registered in them, and the parameter capacity is shared by all.
   */
  class Engine {
    const own: string
    var router: Router
    var others: map<string, set<string>>
    var maxParams: nat

    ghost predicate Valid()
      reads this, router, router.root, router.x.text.Keys
    {
      own !in others && router.Valid() && Grown(router.x.tree)
    }

    /** The shapes registered for a method. */
    ghost function Shapes(m: string): set<string>
      reads this, router
    {
      if m == own then Routes(router.x).Keys else if m in others then others[m] else {}
    }

    /** The capacity suffices for every text of the tree. */
    ghost predicate Covered()
      reads this, router
    {
      forall s :: s in router.x.tree ==> Wildcards(s) <= maxParams
    }

    /** That is: for every route of the method. */
    lemma CoveredExactly()
      requires Valid()
      ensures Covered() <==> Covers(Routes(router.x), maxParams)
    {
      hide Router.Valid, Wildcards;
      TableWithin(router.x.tree);
      forall s, r | s in router.x.tree && r in Routes(router.x) && s <= r ensures Wildcards(s) <= Wildcards(r) {
        WildcardsPrefix(s, r);
      }
    }

    constructor (own: string)
      ensures this.own == own && Valid() && Covered() && Routes(router.x) == map[] && others == map[] && maxParams == 0
      ensures fresh(router) && fresh(router.root) && router.x.text == map[]
    {
      this.own := own;
      router := new Router();
      others, maxParams := map[], 0;
    }

    /** Registers a route for any method; the capacity grows to the count of every registered path. */
    method AddRoute(m: string, path: string, h: Handlers) returns (r: Registration)
      requires Valid()
      modifies this`maxParams, this`others, router`x, router.root, router.x.text.Keys
      ensures Valid() && router == old(router) && router.root == old(router.root)
      ensures fresh(router.x.text.Keys - old(router.x.text.Keys) - {router.root})
      ensures r == Registered <==> m != "" && h != [] && ValidPath(path) && Shape(path) !in old(Shapes(m))
      ensures maxParams == if r == Registered && Wildcards(path) % UINT16 > old(maxParams) then Wildcards(path) % UINT16 else old(maxParams)
      ensures Routes(router.x) ==
        if r == Registered && m == own then old(Routes(router.x))[Shape(path) := Route(h, path, Names(path))] else old(Routes(router.x))
      ensures forall k :: Shapes(k) == old(Shapes(k)) + if r == Registered && k == m then {Shape(path)} else {}
      ensures old(Covered()) && (r == Registered && m == own ==> Wildcards(path) < UINT16) ==> Covered()
    {
      hide Router.Valid, Grown, ValidPath, Shape, Names, Wildcards, Table;
      if |path| == 0 || path[0] != '/' || m == "" || |h| == 0 {
        NeedsSlash(path);
        return BadArgument;
      }
      ghost var table, slots := Routes(router.x), maxParams;
      CoveredExactly();
      hide Covered, Covers;
      if m == own {
        var outcome := AddOwn(path, h);
        CoveredExactly();
        if outcome != Added { return Refused(outcome); }
      } else {
        var outcome := AddElsewhere(m, path);
        if outcome != Added { return Refused(outcome); }
      }
      RaiseTo(path);
      if Covers(table, slots) { StaysCovered(table, slots, path, Route(h, path, Names(path)), maxParams); }
      CoveredExactly();
      r := Registered;
    }

    /** A registration in the tree. */
    method AddOwn(path: string, h: Handlers) returns (outcome: Outcome)
      requires Valid() && h != []
      modifies router`x, router.root, router.x.text.Keys
      ensures Valid() && router.root == old(router.root) && fresh(router.x.text.Keys - old(router.x.text.Keys) - {router.root})
      ensures outcome == Added <==> ValidPath(path) && Shape(path) !in old(Routes(router.x))
      ensures Routes(router.x) == if outcome == Added then old(Routes(router.x))[Shape(path) := Route(h, path, Names(path))] else old(Routes(router.x))
    {
      hide Router.Valid, ValidPath, Shape, Names, Wildcards, Table, Grown;
      ghost var before := router.x.tree;
      outcome := router.AddRoute(path, h);
      StaysGrown(before, router.x.tree, Shape(path), outcome == InvalidPath);
    }

    /** A registration in another method's tree is refused for the same reasons. */
    method AddElsewhere(m: string, path: string) returns (outcome: Outcome)
      requires Valid() && m != own
      modifies this`others
      ensures own !in others && outcome != NoHandlers
      ensures outcome == Added <==> ValidPath(path) && Shape(path) !in old(Shapes(m))
      ensures forall k :: Shapes(k) == old(Shapes(k)) + if outcome == Added && k == m then {Shape(path)} else {}
    {
      hide Router.Valid, ValidPath, Shape, Table;
      var valid := CheckPathValid(path);
      if !valid { return InvalidPath; }
      var known := if m in others then others[m] else {};
      if Shape(path) in known { return Duplicate; }
      others := others[m := known + {Shape(path)}];
      outcome := Added;
    }

    /** The capacity grows to the count of a path, if that is larger. */
    method RaiseTo(path: string)
      requires ValidPath(path)
      modifies this`maxParams
      ensures maxParams == if Wildcards(path) % UINT16 > old(maxParams) then Wildcards(path) % UINT16 else old(maxParams)
    {
      hide ValidPath, Shape, Wildcards;
      var paramsCount := CountParams(path);
      if paramsCount > maxParams { maxParams := paramsCount; }
    }

    /**
     * Serves a request path of the method: makes room for as many parameters as the counter knows of, then
     * looks the path up. The lookup panics exactly when it meets a wildcard beyond that room.
     */
    method Serve(path: string, params: ParamList) returns (handlers: Handlers, fullPath: string, panics: bool, ghost best: string)
      requires Valid() && params.len == 0
      modifies params, params.buf
      ensures params.buf.Length == if old(params.buf.Length) < maxParams then maxParams else old(params.buf.Length)
      ensures panics <==> Overruns(Routes(router.x), path, params.buf.Length)
      ensures Covered() ==> !panics
      ensures !panics ==> AnswerIn(Routes(router.x), path, params, handlers, fullPath, best)
    {
      hide Router.Valid, Router.Fits, Covered, Wildcards, Table, AnswerIn, Overruns, Router.Trace, Grown;
      if params.buf.Length < maxParams {
        params.buf := new Param[maxParams](_ => Param("", ""));
      }
      ghost var walk;
      handlers, fullPath, panics, best, walk := router.Find(path, params);
      PanicsWhen(path, params, walk, panics, handlers, fullPath, best);
      if Covered() { RoomForAll(params); }
    }

    lemma RoomForAll(params: ParamList)
      requires Covered() && maxParams <= params.buf.Length
      ensures router.Fits(params)
    {
    }

    lemma PanicsWhen(path: string, params: ParamList, walk: seq<Spot>, panics: bool, handlers: Handlers, fullPath: string, best: string)
      requires Valid() && router.Trace(path, walk, params.buf.Length, panics, handlers, best)
      requires !panics ==> AnswerIn(Routes(router.x), path, params, handlers, fullPath, best)
      ensures panics <==> Overruns(Routes(router.x), path, params.buf.Length)
    {
      var t := router.x.tree;
      assert Ok(t) by { hide Agrees, Describes; }
      hide Router.Valid, Overrun, Grown, Wildcards, Ok, Captures, Ends, BestIn, AnswerIn;
      if t == map[] {
        assert Table(t) == map[];
      } else {
        hide Table;
        if !panics && handlers != [] { BestCounts(Table(t), path, params, handlers, fullPath, best); }
        PanicsExactly(t, path, walk, params.buf.Length, panics, handlers != [], best);
      }
    }

    lemma BestCounts(table: map<string, Route>, path: string, params: ParamList, handlers: Handlers, fullPath: string, best: string)
      requires AnswerIn(table, path, params, handlers, fullPath, best) && handlers != []
      ensures BestIn(table, path, best) && Wildcards(best) <= params.buf.Length
    {
      CapturesCount(best, path);
    }
  }
}
