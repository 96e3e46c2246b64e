/**
 * The handler chain of a request: `Next` runs the pending handlers and is itself called by handlers,
 * while `Abort` moves the signed 8-bit index past every chain the router can build.
 */
module HandlerChain {

  import opened Options

  type int8 = x: int | -128 <= x <= 127

  /** Half of the largest signed 8-bit integer. */
  const ABORT_INDEX: int8 := 127 / 2

  /** What a handler does in one run, as far as the chain can tell. */
  datatype Action = CallNext | CallAbort
  type Script = seq<Action>

  /**
   * The index, the handlers started so far, the number started when `Abort` was first called, the
   * largest index ever stored, and whether a handler was looked up at a negative index.
   */
  datatype Context = Context(index: int8, started: seq<int>, stopped: Option<nat>, high: int, panicked: bool) {
    predicate IsAborted() { index >= ABORT_INDEX }
  }

  const FRESH := Context(-1, [], None, -1, false)

  /** Conversion to a signed 8-bit integer. */
  function Int8(x: int): (r: int8)
    ensures (r - x) % 256 == 0
    ensures -128 <= x <= 127 ==> r == x
  {
    (x + 128) % 256 - 128
  }

  function Store(c: Context, x: int8): Context { c.(index := x, high := if x > c.high then x else c.high) }

  function Increment(c: Context): Context { if c.panicked then c else Store(c, Int8(c.index + 1)) }

  function AfterAbort(c: Context): Context {
    Store(c, ABORT_INDEX).(stopped := if c.stopped.None? then Some(|c.started|) else c.stopped)
  }

  /** How many handlers can still start. */
  function Left(hs: seq<Script>, c: Context): nat {
    if c.panicked || c.index < 0 || c.index >= |hs| then 0 else |hs| - c.index
  }

  function AfterNext(hs: seq<Script>, c: Context): (r: Context)
    requires |hs| < ABORT_INDEX
    ensures r.panicked || r.index >= |hs|
    decreases Left(hs, Increment(c)), 1, 0
  {
    AfterLoop(hs, Increment(c))
  }

  /** The loop of `Next`; a negative index is out of range. */
  function AfterLoop(hs: seq<Script>, c: Context): (r: Context)
    requires |hs| < ABORT_INDEX
    ensures r.panicked || r.index >= |hs|
    decreases Left(hs, c), 0, 0
  {
    if c.panicked || c.index >= Int8(|hs|) then c
    else if c.index < 0 then c.(panicked := true)
    else AfterLoop(hs, Increment(AfterRun(hs, c.(started := c.started + [c.index]), hs[c.index])))
  }

  function AfterRun(hs: seq<Script>, c: Context, todo: Script): (r: Context)
    requires |hs| < ABORT_INDEX
    ensures r.panicked || r.index == c.index || r.index >= |hs|
    decreases Left(hs, Increment(c)), 2, |todo|
  {
    if todo == [] || c.panicked then c
    else AfterRun(hs, if todo[0].CallNext? then AfterNext(hs, c) else AfterAbort(c), todo[1..])
  }

  // ---------- which handlers start, whatever they do ----------

  function Range(lo: int, hi: int): seq<int>
    decreases hi - lo
  {
    if lo >= hi then [] else [lo] + Range(lo + 1, hi)
  }

  lemma {:induction false} RangeLast(lo: int, hi: int)
    requires lo <= hi
    ensures Range(lo, hi + 1) == Range(lo, hi) + [hi] && |Range(lo, hi)| == hi - lo
    decreases hi - lo
  {
    if lo < hi { RangeLast(lo + 1, hi); }
  }

  /** A handler that aborts before it does anything else. */
  predicate AbortsFirst(todo: Script) { todo != [] && todo[0].CallAbort? }

  /** One more than the first handler from `i` on that aborts first; all of them if there is none. */
  function Begun(hs: seq<Script>, i: nat): (n: nat)
    requires i <= |hs|
    ensures i <= n <= |hs|
    ensures forall k :: i <= k < n - 1 ==> !AbortsFirst(hs[k])
    ensures n < |hs| ==> i < n && AbortsFirst(hs[n - 1])
    decreases |hs| - i
  {
    if i == |hs| then i else if AbortsFirst(hs[i]) then i + 1 else Begun(hs, i + 1)
  }

  /** Nobody can start any more. */
  predicate Over(hs: seq<Script>, c: Context) { c.panicked || c.index >= |hs| }

  lemma {:induction false} OverStays(hs: seq<Script>, c: Context, todo: Script)
    requires |hs| < ABORT_INDEX && Over(hs, c)
    ensures AfterNext(hs, c).started == c.started
    ensures AfterRun(hs, c, todo).started == c.started && Over(hs, AfterRun(hs, c, todo))
    decreases |todo|
  {
    if todo != [] && !c.panicked {
      OverStays(hs, if todo[0].CallNext? then AfterNext(hs, c) else AfterAbort(c), todo[1..]);
    }
  }

  /** The loop of `Next` at a handler: exactly the handlers up to the first one that aborts first start, in order. */
  lemma {:induction false} LoopBegins(hs: seq<Script>, c: Context)
    requires |hs| < ABORT_INDEX && !c.panicked && 0 <= c.index <= |hs| && c.started == Range(0, c.index)
    ensures AfterLoop(hs, c).started == Range(0, Begun(hs, c.index))
    decreases |hs| - c.index
  {
    hide Int8;
    var i := c.index;
    if i < |hs| {
      RangeLast(0, i);
      var d, todo := c.(started := c.started + [i]), hs[i];
      var e := AfterRun(hs, d, todo);
      assert AfterLoop(hs, c) == AfterLoop(hs, Increment(e));
      if todo == [] {
        LoopBegins(hs, Increment(d));
      } else if todo[0].CallAbort? {
        OverStays(hs, AfterAbort(d), todo[1..]);
        OverStays(hs, e, []);
      } else {
        LoopBegins(hs, Increment(d));
        OverStays(hs, AfterNext(hs, d), todo[1..]);
        OverStays(hs, e, []);
      }
    }
  }

  /**
   * Whatever the handlers do, and however often: they start in order and at most once each, exactly those up
   * to the first that aborts before anything else, or all of them if there is none.
   */
  lemma StartsExactly(hs: seq<Script>)
    requires |hs| < ABORT_INDEX
    ensures AfterNext(hs, FRESH).started == Range(0, Begun(hs, 0))
  {
    LoopBegins(hs, Increment(FRESH));
  }

  // ---------- chains whose handlers call Next at most once ----------

  function Nexts(todo: Script): nat {
    if todo == [] then 0 else (if todo[0].CallNext? then 1 else 0) + Nexts(todo[1..])
  }

  predicate Single(hs: seq<Script>) { forall i :: 0 <= i < |hs| ==> Nexts(hs[i]) <= 1 }

  /** Nothing was aborted, and the handlers before `i` have started. */
  predicate Running(hs: seq<Script>, c: Context, i: int) {
    !c.panicked && c.stopped.None? && c.started == Range(0, i) && 0 <= i <= |hs| && c.index <= c.high <= 2 * ABORT_INDEX
  }

  /** Somebody aborted, and nobody has started since. */
  predicate Stopped(hs: seq<Script>, c: Context, limit: int) {
    && !c.panicked && c.stopped.Some? && c.stopped.value == |c.started| <= |hs|
    && c.started == Range(0, |c.started|)
    && ABORT_INDEX <= c.index <= limit && c.index <= c.high <= 2 * ABORT_INDEX
  }

  /** After an abort a handler can only move the index on by its own call. */
  lemma {:induction false} RunStopped(hs: seq<Script>, c: Context, todo: Script, limit: int)
    requires |hs| < ABORT_INDEX && Stopped(hs, c, limit) && limit + Nexts(todo) <= 2 * ABORT_INDEX
    ensures Stopped(hs, AfterRun(hs, c, todo), limit + Nexts(todo))
    decreases |todo|
  {
    if todo != [] {
      if todo[0].CallNext? {
        assert AfterNext(hs, c) == Increment(c);
        RunStopped(hs, AfterNext(hs, c), todo[1..], limit + 1);
      } else {
        RunStopped(hs, AfterAbort(c), todo[1..], limit);
      }
    }
  }

  /** How many of the handlers from `i` on call `Next`. */
  function Callers(hs: seq<Script>, i: nat): nat
    requires i <= |hs|
    decreases |hs| - i
  {
    if i == |hs| then 0 else Nexts(hs[i]) + Callers(hs, i + 1)
  }

  lemma {:induction false} CallersBound(hs: seq<Script>, i: nat)
    requires i <= |hs| && Single(hs)
    ensures Callers(hs, i) <= |hs| - i
    decreases |hs| - i
  {
    if i < |hs| { CallersBound(hs, i + 1); }
  }

  /** Whether some handler from `i` on aborts. */
  predicate Aborts(hs: seq<Script>, i: nat) { exists k :: i <= k < |hs| && CallAbort in hs[k] }

  lemma AbortsStep(hs: seq<Script>, i: nat)
    requires i < |hs|
    ensures Aborts(hs, i) <==> CallAbort in hs[i] || Aborts(hs, i + 1)
  {
  }

  /** The chain has come to its end: every handler has started, and each call of `Next` and each return moved the index on. */
  predicate Exhausted(hs: seq<Script>, c: Context, i: nat)
    requires i <= |hs|
  {
    Running(hs, c, |hs|) && c.index == |hs| + Callers(hs, i) && !Aborts(hs, i)
  }

  lemma TodoStep(todo: Script)
    requires todo != []
    ensures CallAbort in todo <==> todo[0].CallAbort? || CallAbort in todo[1..]
  {
    assert todo == [todo[0]] + todo[1..];
  }

  /** Once the chain is exhausted, the rest of a handler can only abort. */
  lemma {:induction false} RunExhausted(hs: seq<Script>, c: Context, todo: Script)
    requires |hs| < ABORT_INDEX && Running(hs, c, |hs|) && c.index >= |hs| && Nexts(todo) == 0
    ensures if CallAbort in todo then Stopped(hs, AfterRun(hs, c, todo), ABORT_INDEX) else AfterRun(hs, c, todo) == c
    decreases |todo|
  {
    RangeLast(0, |hs|);
    if todo != [] {
      assert todo[0] in todo;
      RunStopped(hs, AfterAbort(c), todo[1..], ABORT_INDEX);
    }
  }

  /** A handler at its own index. */
  lemma {:induction false} RunOnce(hs: seq<Script>, c: Context, todo: Script)
    requires |hs| < ABORT_INDEX && Single(hs) && Nexts(todo) <= 1
    requires 0 <= c.index < |hs| && Running(hs, c, c.index + 1)
    ensures var r, i := AfterRun(hs, c, todo), c.index;
      if CallAbort in todo || (Nexts(todo) == 1 && Aborts(hs, i + 1)) then Stopped(hs, r, ABORT_INDEX + |hs| - i)
      else if Nexts(todo) == 0 then r == c
      else Exhausted(hs, r, i + 1)
    decreases |hs| - c.index, 0, |todo|
  {
    RangeLast(0, c.index + 1);
    if todo != [] {
      TodoStep(todo);
      if todo[0].CallNext? {
        NextOnce(hs, c);
        var d := AfterNext(hs, c);
        if d.stopped.Some? {
          RunStopped(hs, d, todo[1..], ABORT_INDEX + |hs| - c.index);
        } else {
          RunExhausted(hs, d, todo[1..]);
        }
      } else {
        RunStopped(hs, AfterAbort(c), todo[1..], ABORT_INDEX);
      }
    }
  }

  lemma {:induction false} NextOnce(hs: seq<Script>, c: Context)
    requires |hs| < ABORT_INDEX && Single(hs) && -1 <= c.index < |hs| && Running(hs, c, c.index + 1)
    ensures var r, i := AfterNext(hs, c), c.index;
      if Aborts(hs, i + 1) then Stopped(hs, r, ABORT_INDEX + |hs| - i) else Exhausted(hs, r, i + 1)
    decreases |hs| - c.index - 1, 2, 0
  {
    LoopOnce(hs, Increment(c));
  }

  lemma {:induction false} LoopOnce(hs: seq<Script>, c: Context)
    requires |hs| < ABORT_INDEX && Single(hs) && 0 <= c.index <= |hs| && Running(hs, c, c.index)
    ensures var r, i := AfterLoop(hs, c), c.index;
      if Aborts(hs, i) then Stopped(hs, r, ABORT_INDEX + |hs| - i + 1) else Exhausted(hs, r, i)
    decreases |hs| - c.index, 1, 0
  {
    hide Int8;
    var i := c.index;
    if i < |hs| {
      RangeLast(0, i);
      AbortsStep(hs, i);
      CallersBound(hs, i);
      var d := c.(started := c.started + [i]);
      RunOnce(hs, d, hs[i]);
      var e := Increment(AfterRun(hs, d, hs[i]));
      assert AfterLoop(hs, c) == AfterLoop(hs, e);
      hide AfterRun, Range, Aborts;
      if CallAbort !in hs[i] && Nexts(hs[i]) == 0 {
        LoopOnce(hs, e);
      } else {
        assert AfterLoop(hs, e) == e;
      }
    }
  }

  // ---------- whole requests ----------

  /**
   * From a fresh context the handlers start in order and at most once each: all of them if nobody
   * aborts, and exactly those started before the first abort otherwise; then `IsAborted` holds at the
   * end. No index exceeds twice the abort index, so the 8-bit index never wraps and no lookup fails.
   */
  lemma ChainRuns(hs: seq<Script>)
    requires |hs| < ABORT_INDEX && Single(hs)
    ensures var r := AfterNext(hs, FRESH);
      && !r.panicked && r.index <= r.high <= 2 * ABORT_INDEX
      && r.started == Range(0, |r.started|) && |r.started| <= |hs|
      && (r.stopped.Some? <==> Aborts(hs, 0))
      && (r.stopped.None? ==> |r.started| == |hs| && r.index == |hs| + Callers(hs, 0))
      && (r.stopped.Some? ==> |r.started| == r.stopped.value && r.IsAborted())
  {
    NextOnce(hs, FRESH);
    CallersBound(hs, 0);
    RangeLast(0, |hs|);
  }

  /**
   * Every call of `Next` and every return moves the index on, so `IsAborted` also holds at the end of a
   * long chain that nobody aborted. It tells the truth for a chain exactly when somebody aborts, or the
   * number of handlers and of those among them that call `Next` add up to less than the abort index.
   */
  lemma TruthfulExactly(hs: seq<Script>)
    requires |hs| < ABORT_INDEX && Single(hs)
    ensures AfterNext(hs, FRESH).IsAborted() == Aborts(hs, 0) <==> Aborts(hs, 0) || |hs| + Callers(hs, 0) < ABORT_INDEX
  {
    ChainRuns(hs);
  }

  /** The chain that moves the index furthest: everybody passes on, the last one aborts first. */
  function Furthest(n: nat): seq<Script>
    requires n > 0
  {
    seq(n, i => if i == n - 1 then [CallAbort, CallNext] else [CallNext])
  }

  /** The bound is reached by a longest chain. */
  lemma BoundReached()
    ensures var n := ABORT_INDEX as int - 1; Single(Furthest(n)) && AfterNext(Furthest(n), FRESH).index == 2 * ABORT_INDEX
  {
    var n := ABORT_INDEX as int - 1;
    assert [CallAbort, CallNext][1..] == [CallNext];
    assert Nexts([CallNext]) == 1 && Nexts([CallAbort, CallNext]) == 1;
    FurthestLoop(n, Increment(FRESH));
  }

  lemma {:induction false} FurthestLoop(n: nat, c: Context)
    requires 0 < n < ABORT_INDEX && 0 <= c.index < n && !c.panicked
    ensures AfterLoop(Furthest(n), c).index == ABORT_INDEX + n - c.index + 1 && !AfterLoop(Furthest(n), c).panicked
    decreases n - c.index
  {
    hide Int8;
    var hs := Furthest(n);
    var d := c.(started := c.started + [c.index]);
    if c.index == n - 1 {
      var a := AfterAbort(d);
      assert hs[c.index][1..] == [CallNext];
      assert AfterNext(hs, a) == Increment(a);
      assert AfterRun(hs, d, hs[c.index]) == AfterRun(hs, a, [CallNext]) == AfterRun(hs, Increment(a), []);
    } else {
      FurthestLoop(n, Increment(d));
      assert AfterRun(hs, d, [CallNext]) == AfterRun(hs, AfterNext(hs, d), []);
    }
  }

  /** A chain in which every handler passes on. */
  function Passing(n: nat): seq<Script> { seq(n, _ => [CallNext]) }

  lemma {:induction false} PassingCalls(n: nat, i: nat)
    requires i <= n
    ensures Callers(Passing(n), i) == n - i && Single(Passing(n)) && !Aborts(Passing(n), 0)
    decreases n - i
  {
    assert [CallNext][1..] == [] && Nexts([CallNext]) == 1;
    if i < n { PassingCalls(n, i + 1); }
  }

  /** Thirty-two handlers that all pass on: nobody aborts, and `IsAborted` holds at the end. */
  lemma LongChainLies()
    ensures var r := AfterNext(Passing(32), FRESH); !Aborts(Passing(32), 0) && r.stopped.None? && !r.panicked && r.IsAborted()
  {
    PassingCalls(32, 0);
    hide AfterNext;
    assert |Passing(32)| == 32;
    ChainRuns(Passing(32));
  }

  /** `IsAborted` tells the truth at the end of every chain of `n` handlers, each calling `Next` at most once. */
  ghost predicate Honest(n: nat)
    requires n < ABORT_INDEX
  {
    forall hs: seq<Script> :: |hs| == n && Single(hs) ==> AfterNext(hs, FRESH).IsAborted() == AfterNext(hs, FRESH).stopped.Some?
  }

  /** It can be trusted for a chain length exactly when twice the length is below the abort index. */
  lemma HonestExactly(n: nat)
    requires n < ABORT_INDEX
    ensures Honest(n) <==> 2 * n < ABORT_INDEX
  {
    hide AfterNext;
    forall hs: seq<Script> | |hs| == n && Single(hs)
      ensures AfterNext(hs, FRESH).IsAborted() == AfterNext(hs, FRESH).stopped.Some? || 2 * n >= ABORT_INDEX
    {
      ChainRuns(hs);
      CallersBound(hs, 0);
    }
    if 2 * n >= ABORT_INDEX {
      PassingCalls(n, 0);
      ChainRuns(Passing(n));
      assert |Passing(n)| == n;
    }
  }

  /**
   * Without the limit on calls the index does wrap: a handler that goes on calling `Next` in an aborted
   * context fails exactly when its calls carry the index past the largest 8-bit integer.
   */
  lemma {:induction false} RepeatedNext(hs: seq<Script>, c: Context, n: nat)
    requires |hs| < ABORT_INDEX && !c.panicked && c.IsAborted()
    ensures AfterRun(hs, c, seq(n, _ => CallNext)).panicked <==> c.index + n > 127
    decreases n
  {
    if n > 0 {
      var todo: Script := seq(n, _ => CallNext);
      assert todo[1..] == seq(n - 1, _ => CallNext);
      if c.index < 127 {
        assert AfterNext(hs, c) == Increment(c);
        RepeatedNext(hs, Increment(c), n - 1);
      } else {
        assert AfterNext(hs, c).panicked;
      }
    }
  }

  // ---------- the context object ----------

  datatype Combined = Chain(handlers: seq<Script>) | TooManyHandlers

  /** A group's handlers followed by a route's own, refused at the abort index. */
  method CombineHandlers(group: array<Script>, handlers: array<Script>) returns (r: Combined)
    ensures r == if group.Length + handlers.Length >= ABORT_INDEX then TooManyHandlers else Chain(group[..] + handlers[..])
    ensures r.Chain? ==> |r.handlers| < ABORT_INDEX
  {
    var finalSize := group.Length + handlers.Length;
    if finalSize >= ABORT_INDEX {
      return TooManyHandlers;
    }
    var merged := new Script[finalSize](_ => []);
    for i := 0 to group.Length
      invariant merged[..i] == group[..i]
    {
      merged[i] := group[i];
    }
    for i := 0 to handlers.Length
      invariant merged[..group.Length] == group[..]
      invariant merged[group.Length..group.Length + i] == handlers[..i]
    {
      merged[group.Length + i] := handlers[i];
    }
    assert merged[..] == merged[..group.Length] + merged[group.Length..];
    return Chain(merged[..]);
  }

  class RequestContext {
    var index: int8
    const handlers: seq<Script>
    ghost var history: Context

    constructor (handlers: seq<Script>)
      requires |handlers| < ABORT_INDEX
      ensures this.handlers == handlers && Valid() && history == FRESH
    {
      this.handlers, index := handlers, -1;
      history := FRESH;
    }

    ghost predicate Valid()
      reads this
    {
      |handlers| < ABORT_INDEX && index == history.index
    }

    method Abort()
      requires Valid()
      modifies this
      ensures Valid() && history == AfterAbort(old(history)) && IsAborted()
    {
      index := ABORT_INDEX;
      history := AfterAbort(history);
    }

    predicate IsAborted()
      reads this
    {
      index >= ABORT_INDEX
    }

    /** Runs the pending handlers; a lookup at a negative index panics, and a panic ends everything. */
    method Next() returns (panics: bool)
      requires Valid() && !history.panicked
      modifies this
      ensures Valid() && history == AfterNext(handlers, old(history)) && panics == history.panicked
      decreases Left(handlers, Increment(history)), 1, 0
    {
      hide Int8, AfterRun;
      ghost var before := history;
      index := Int8(index + 1);
      history := Increment(history);
      while index < Int8(|handlers|)
        invariant Valid() && !history.panicked && AfterLoop(handlers, history) == AfterNext(handlers, before)
        invariant Left(handlers, history) <= Left(handlers, Increment(before))
        decreases Left(handlers, history)
      {
        if index < 0 {
          history := history.(panicked := true);
          return true;
        }
        history := history.(started := history.started + [index]);
        panics := Handle(handlers[index]);
        if panics { return; }
        index := Int8(index + 1);
        history := Increment(history);
      }
      panics := false;
    }

    /** A handler is what it does to the context. */
    method Handle(todo: Script) returns (panics: bool)
      requires Valid() && !history.panicked
      modifies this
      ensures Valid() && history == AfterRun(handlers, old(history), todo) && panics == history.panicked
      decreases Left(handlers, Increment(history)), 2, |todo|
    {
      panics := false;
      if todo != [] {
        if todo[0].CallNext? {
          panics := Next();
          if panics { return; }
        } else {
          Abort();
        }
        panics := Handle(todo[1..]);
      }
    }

    /** A request: the router's chain on a fresh context. */
    method Serve() returns (panics: bool)
      requires Valid() && history == FRESH
      modifies this
      ensures Valid() && history == AfterNext(handlers, FRESH) && panics == history.panicked
      ensures history.started == Range(0, Begun(handlers, 0))
      ensures Single(handlers) ==>
        && !panics && index <= 2 * ABORT_INDEX && (history.stopped.Some? <==> Aborts(handlers, 0))
        && (history.stopped.Some? ==> IsAborted() && history.stopped.value == |history.started|)
    {
      StartsExactly(handlers);
      if Single(handlers) { ChainRuns(handlers); }
      hide AfterNext, Begun, Range, Aborts;
      panics := Next();
    }
  }
}
