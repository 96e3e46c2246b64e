/**
 * Request cookies. Cookie headers wait in the header list until somebody asks for a cookie; then they
 * are parsed and taken out of the list, once. Setting a Cookie header parses it at once.
 */
module Cookies {

  import opened ByteCodec
  import opened Args
  import opened ArgList
  import opened CookieText

  const COOKIE: bytes := ['C' as byte, 'o' as byte, 'o' as byte, 'k' as byte, 'i' as byte, 'e' as byte]

  /** The comparison of header keys: bit five does not count. */
  function Folded(c: byte): byte { if c as int / 32 % 2 == 1 then c else (c as int + 32) as byte }

  predicate CookieKey(key: bytes) { |key| == |COOKIE| && forall i :: 0 <= i < |key| ==> Folded(key[i]) == Folded(COOKIE[i]) }

  /** Exactly the spellings of the name in upper and lower case count. */
  lemma CookieKeyMeans(key: bytes)
    ensures CookieKey(key) <==>
      |key| == 6 && key[0] in ['c' as byte, 'C' as byte] && key[1] in ['o' as byte, 'O' as byte] && key[2] in ['o' as byte, 'O' as byte]
      && key[3] in ['k' as byte, 'K' as byte] && key[4] in ['i' as byte, 'I' as byte] && key[5] in ['e' as byte, 'E' as byte]
  {
    if |key| == 6 {
      assert CookieKey(key) <==>
        && Folded(key[0]) == Folded(COOKIE[0]) && Folded(key[1]) == Folded(COOKIE[1]) && Folded(key[2]) == Folded(COOKIE[2])
        && Folded(key[3]) == Folded(COOKIE[3]) && Folded(key[4]) == Folded(COOKIE[4]) && Folded(key[5]) == Folded(COOKIE[5]);
    }
  }

  /** The cookies of every Cookie header, in order. */
  function CookiesOf(h: seq<KV>): seq<KV> {
    if h == [] then [] else
    CookiesOf(h[..|h| - 1]) + if h[|h| - 1].key == COOKIE then ParseCookies(h[|h| - 1].value) else []
  }

  lemma {:induction false} CookiesAppend(a: seq<KV>, b: seq<KV>)
    ensures CookiesOf(a + b) == CookiesOf(a) + CookiesOf(b)
  {
    if b == [] {
      assert a + b == a;
    } else {
      var n := |b| - 1;
      assert (a + b)[..|a + b| - 1] == a + b[..n];
      CookiesAppend(a, b[..n]);
    }
  }

  lemma CookiesOne(kv: KV)
    ensures CookiesOf([kv]) == if kv.key == COOKIE then ParseCookies(kv.value) else []
    ensures Without([kv], COOKIE) == if kv.key == COOKIE then [] else [kv]
  {
    assert [kv][..0] == [] && [kv][1..] == [];
  }

  // ---------- the operations on values ----------

  datatype Jar = Jar(headers: seq<KV>, cookies: seq<KV>, collected: bool)

  /** A header line as it arrives, a header set by a caller, and a look at the cookies. */
  datatype Op = AddRaw(key: bytes, value: bytes, noValue: bool) | SetHeader(key: bytes, value: bytes) | Collect

  function Collected(j: Jar): Jar {
    if j.collected then j else Jar(Without(j.headers, COOKIE), j.cookies + CookiesOf(j.headers), true)
  }

  function Do(j: Jar, op: Op): Jar {
    match op
    case AddRaw(key, value, noValue) => j.(headers := j.headers + [Settle(key, value, noValue)])
    case SetHeader(key, value) =>
      if CookieKey(key) then var c := Collected(j); c.(cookies := c.cookies + ParseCookies(value))
      else j.(headers := SetIn(j.headers, KV(key, value, false)))
    case Collect => Collected(j)
  }

  function DoAll(ops: seq<Op>): Jar {
    if ops == [] then Jar([], [], false) else Do(DoAll(ops[..|ops| - 1]), ops[|ops| - 1])
  }

  /** Eager parsing: every Cookie header is parsed when it comes and never enters the list. */
  datatype Seen = Seen(headers: seq<KV>, cookies: seq<KV>)

  function See(s: Seen, op: Op): Seen {
    match op
    case AddRaw(key, value, noValue) =>
      if key == COOKIE then s.(cookies := s.cookies + ParseCookies(Settle(key, value, noValue).value))
      else s.(headers := s.headers + [Settle(key, value, noValue)])
    case SetHeader(key, value) =>
      if CookieKey(key) then s.(cookies := s.cookies + ParseCookies(value))
      else s.(headers := SetIn(s.headers, KV(key, value, false)))
    case Collect => s
  }

  function Eager(ops: seq<Op>): Seen {
    if ops == [] then Seen([], []) else See(Eager(ops[..|ops| - 1]), ops[|ops| - 1])
  }

  /** The Cookie headers that arrived or were set, a semicolon behind each. */
  function AllText(ops: seq<Op>): bytes {
    if ops == [] then [] else
    var op := ops[|ops| - 1];
    AllText(ops[..|ops| - 1]) + if Adds(op) then op.value + [SEMICOLON] else []
  }

  /** A Cookie header that arrives with a value, or is set under any spelling of its name. */
  predicate Adds(op: Op) { (op.AddRaw? && op.key == COOKIE && !op.noValue) || (op.SetHeader? && CookieKey(op.key)) }

  /** Eager parsing finds the cookies of all Cookie headers as if they were one. */
  lemma {:induction false} EagerIsOneHeader(ops: seq<Op>)
    ensures Eager(ops).cookies == ParseCookies(AllText(ops))
    ensures AllText(ops) == [] || AllText(ops)[|AllText(ops)| - 1] == SEMICOLON
    decreases |ops|
  {
    if ops != [] {
      var n := |ops| - 1;
      var op, t := ops[n], AllText(ops[..n]);
      EagerIsOneHeader(ops[..n]);
      assert ParseCookies([]) == [];
      hide ParseCookies, SetIn, CookieKey;
      NoMore(ParseCookies(t));
      if Adds(op) {
        OneMoreHeader(t, op.value);
        assert (t + (op.value + [SEMICOLON]))[|t| + |op.value|] == SEMICOLON;
      } else {
        assert t + [] == t;
      }
    }
  }

  lemma OneMoreHeader(t: bytes, value: bytes)
    requires t == [] || t[|t| - 1] == SEMICOLON
    ensures ParseCookies(t + (value + [SEMICOLON])) == ParseCookies(t) + ParseCookies(value)
  {
    assert ParseCookies([]) == [];
    EndsBehind(t, value);
    ParsedApart(value, []);
    hide ParseCookies, Behind;
    NoMore(ParseCookies(value));
    if t == [] {
      assert t + (value + [SEMICOLON]) == value + [SEMICOLON];
    } else {
      var a := t[..|t| - 1];
      NoMore(ParseCookies(a));
      ParsedApart(a, []);
      ParsedApart(a, value + [SEMICOLON]);
    }
  }

  lemma NoMore(a: seq<KV>)
    ensures a + [] == a == [] + a
  {
  }

  lemma EndsBehind(t: bytes, value: bytes)
    ensures Behind(value, []) == value + [SEMICOLON]
    ensures t != [] && t[|t| - 1] == SEMICOLON ==>
            t == Behind(t[..|t| - 1], []) && t + (value + [SEMICOLON]) == Behind(t[..|t| - 1], value + [SEMICOLON])
  {
    if t != [] && t[|t| - 1] == SEMICOLON { assert t == t[..|t| - 1] + [SEMICOLON]; }
  }

  /** The operations that look at the cookies, and those that leave a Cookie header in the list. */
  predicate Looks(op: Op) { op.Collect? || (op.SetHeader? && CookieKey(op.key)) }

  predicate Leaves(op: Op) { op.AddRaw? && op.key == COOKIE }

  /** A Cookie header arrives raw after somebody has looked. */
  predicate TooLate(ops: seq<Op>) { exists i, j :: 0 <= i < j < |ops| && Looks(ops[i]) && Leaves(ops[j]) }

  predicate Looked(ops: seq<Op>) { exists i :: 0 <= i < |ops| && Looks(ops[i]) }

  lemma LastOp(ops: seq<Op>)
    requires ops != []
    ensures var n := |ops| - 1;
      && (Looked(ops) <==> Looked(ops[..n]) || Looks(ops[n]))
      && (TooLate(ops) <==> TooLate(ops[..n]) || (Looked(ops[..n]) && Leaves(ops[n])))
  {
    var n := |ops| - 1;
    var init := ops[..n];
    if Looked(init) {
      var i :| 0 <= i < |init| && Looks(init[i]);
      assert Looks(ops[i]);
      assert Leaves(ops[n]) ==> TooLate(ops);
    }
    if TooLate(init) {
      var i, j :| 0 <= i < j < |init| && Looks(init[i]) && Leaves(init[j]);
      assert Looks(ops[i]) && Leaves(ops[j]);
    }
    if Looked(ops) {
      var i :| 0 <= i < |ops| && Looks(ops[i]);
      assert i < n ==> Looks(init[i]);
    }
    if TooLate(ops) {
      var i, j :| 0 <= i < j < |ops| && Looks(ops[i]) && Leaves(ops[j]);
      assert Looks(init[i]);
      assert j < n ==> Leaves(init[j]);
    }
  }

  // ---------- headers with and without cookies ----------

  predicate HasCookie(h: seq<KV>) { exists i :: 0 <= i < |h| && h[i].key == COOKIE }

  /** The Cookie headers of a list, and the others, head first. */
  lemma HeadParts(x: KV, rest: seq<KV>)
    ensures Without([x] + rest, COOKIE) == (if x.key == COOKIE then [] else [x]) + Without(rest, COOKIE)
    ensures CookiesOf([x] + rest) == (if x.key == COOKIE then ParseCookies(x.value) else []) + CookiesOf(rest)
  {
    CookiesOne(x);
    hide CookiesOf, Without, ParseCookies;
    CookiesAppend([x], rest);
    WithoutAppend([x], rest, COOKIE);
  }

  /** Setting another header is no concern of the Cookie headers. */
  lemma {:induction false} SetElsewhere(h: seq<KV>, kv: KV)
    requires kv.key != COOKIE
    ensures Without(SetIn(h, kv), COOKIE) == SetIn(Without(h, COOKIE), kv) && CookiesOf(SetIn(h, kv)) == CookiesOf(h)
    decreases |h|
  {
    if h == [] {
      CookiesOne(kv);
      assert SetIn(h, kv) == [kv];
    } else {
      var x, rest := h[0], h[1..];
      assert h == [x] + rest;
      hide CookiesOf, Without, SetIn, ParseCookies;
      HeadParts(x, rest);
      if x.key == kv.key {
        SetFirst(x, rest, kv);
        SetFirst(x, Without(rest, COOKIE), kv);
        HeadParts(kv, rest);
      } else {
        SetElsewhere(rest, kv);
        SetBehind(x, rest, kv);
        HeadParts(x, SetIn(rest, kv));
        if x.key == COOKIE {
          NoMore(Without(rest, COOKIE));
          NoMore(SetIn(Without(rest, COOKIE), kv));
        } else {
          SetBehind(x, Without(rest, COOKIE), kv);
        }
      }
    }
  }

  lemma SetFirst(x: KV, rest: seq<KV>, kv: KV)
    requires x.key == kv.key
    ensures SetIn([x] + rest, kv) == [kv] + rest
  {
    assert ([x] + rest)[1..] == rest;
  }

  lemma SetBehind(x: KV, rest: seq<KV>, kv: KV)
    requires x.key != kv.key
    ensures SetIn([x] + rest, kv) == [x] + SetIn(rest, kv)
  {
    assert ([x] + rest)[1..] == rest;
  }

  lemma SetHas(h: seq<KV>, kv: KV)
    requires kv.key != COOKIE
    ensures HasCookie(SetIn(h, kv)) <==> HasCookie(h)
  {
    var t := SetIn(h, kv);
    if HasCookie(h) {
      var i :| 0 <= i < |h| && h[i].key == COOKIE;
      assert t[i].key == COOKIE;
    }
    if HasCookie(t) {
      var i :| 0 <= i < |t| && t[i].key == COOKIE;
      assert h[i].key == COOKIE;
    }
  }

  // ---------- late and early ----------

  /** What the list and the cookies are, before anybody looked and afterwards. */
  ghost predicate Tracks(ops: seq<Op>) {
    var j, s := DoAll(ops), Eager(ops);
    && j.collected == Looked(ops) && !HasCookie(s.headers)
    && (!Looked(ops) ==> s == Seen(Without(j.headers, COOKIE), j.cookies + CookiesOf(j.headers)))
    && (Looked(ops) && !TooLate(ops) ==> s == Seen(j.headers, j.cookies))
    && (TooLate(ops) ==> Looked(ops) && HasCookie(j.headers))
  }

  lemma {:induction false} TracksAlways(ops: seq<Op>)
    ensures Tracks(ops)
    decreases |ops|
  {
    if ops != [] {
      var n := |ops| - 1;
      TracksAlways(ops[..n]);
      LastOp(ops);
      hide Looked, TooLate, HasCookie, CookiesOf, Without, SetIn, CookieKey;
      match ops[n]
      case AddRaw(key, value, noValue) => TracksRaw(ops, Settle(key, value, noValue));
      case SetHeader(key, value) => TracksSet(ops, key, value);
      case Collect => TracksLook(DoAll(ops[..n]));
    }
  }

  lemma TracksLook(j: Jar)
    ensures var c := Collected(j); !j.collected ==> Seen(c.headers, c.cookies) == Seen(Without(j.headers, COOKIE), j.cookies + CookiesOf(j.headers))
  {
  }

  lemma TracksRaw(ops: seq<Op>, kv: KV)
    requires ops != [] && ops[|ops| - 1].AddRaw? && Tracks(ops[..|ops| - 1])
    requires var op := ops[|ops| - 1]; kv == Settle(op.key, op.value, op.noValue)
    ensures Tracks(ops)
  {
    var n := |ops| - 1;
    LastOp(ops);
    var j := DoAll(ops[..n]);
    RawParts(j.headers, j.cookies, kv);
    AppendHas(j.headers, kv);
    AppendHas(Eager(ops[..n]).headers, kv);
    hide Looked, TooLate, HasCookie, CookiesOf, Without, ParseCookies;
  }

  lemma RawParts(h: seq<KV>, cookies: seq<KV>, kv: KV)
    ensures Without(h + [kv], COOKIE) == if kv.key == COOKIE then Without(h, COOKIE) else Without(h, COOKIE) + [kv]
    ensures cookies + CookiesOf(h + [kv]) ==
            if kv.key == COOKIE then cookies + CookiesOf(h) + ParseCookies(kv.value) else cookies + CookiesOf(h)
  {
    CookiesAppend(h, [kv]);
    WithoutAppend(h, [kv], COOKIE);
    CookiesOne(kv);
    hide CookiesOf, Without, ParseCookies;
    if kv.key == COOKIE {
      assert cookies + (CookiesOf(h) + ParseCookies(kv.value)) == cookies + CookiesOf(h) + ParseCookies(kv.value);
    }
  }

  lemma AppendHas(h: seq<KV>, kv: KV)
    ensures HasCookie(h + [kv]) <==> HasCookie(h) || kv.key == COOKIE
  {
    var t := h + [kv];
    assert t[|h|] == kv;
    if HasCookie(h) {
      var i :| 0 <= i < |h| && h[i].key == COOKIE;
      assert t[i].key == COOKIE;
    }
  }

  lemma TracksSet(ops: seq<Op>, key: bytes, value: bytes)
    requires ops != [] && ops[|ops| - 1] == SetHeader(key, value) && Tracks(ops[..|ops| - 1])
    ensures Tracks(ops)
  {
    var n := |ops| - 1;
    LastOp(ops);
    var j, kv := DoAll(ops[..n]), KV(key, value, false);
    if !CookieKey(key) {
      assert CookieKey(COOKIE);
      SetElsewhere(j.headers, kv);
      SetHas(j.headers, kv);
      SetHas(Eager(ops[..n]).headers, kv);
    }
    hide Looked, TooLate, HasCookie, CookiesOf, Without, SetIn, CookieKey;
  }

  /**
   * For every sequence of operations, a final look finds the cookies and leaves the headers of eager
   * parsing exactly when no raw Cookie header arrived after an earlier look.
   */
  lemma LazyIsEager(ops: seq<Op>)
    ensures var j := DoAll(ops + [Collect]);
      Seen(j.headers, j.cookies) == Eager(ops) <==> !TooLate(ops)
  {
    var all := ops + [Collect];
    assert all[..|ops|] == ops;
    LastOp(all);
    TracksAlways(ops);
    hide Looked, TooLate, CookiesOf, Without;
    if TooLate(ops) { assert HasCookie(DoAll(ops).headers); }
  }

  lemma ParseOne(k: byte, v: byte)
    requires k != SPACE && k != EQUALS && k != SEMICOLON && v != SPACE && v != EQUALS && v != SEMICOLON
    ensures ParseCookies([k, EQUALS, v]) == [KV([k], [v], false)]
  {
    var b := [k, EQUALS, v];
    FirstIs(b, SEMICOLON, 3);
    FirstIs(b, EQUALS, 1);
    assert b[..3] == b && b[..1] == [k] && b[2..] == [v];
    assert DecodeCookie([k], false) == [k] && DecodeCookie([v], true) == [v];
    assert ParseCookies([]) == [];
  }

  lemma DoSnoc(ops: seq<Op>, op: Op)
    ensures DoAll(ops + [op]) == Do(DoAll(ops), op)
  {
    assert (ops + [op])[..|ops|] == ops;
  }

  /** The cookies of a Cookie header that arrives after a look are not found, and would be without the look. */
  lemma LateCookies(a: bytes, b: bytes)
    ensures DoAll([AddRaw(COOKIE, a, false), Collect, AddRaw(COOKIE, b, false), Collect]).cookies == ParseCookies(a)
    ensures DoAll([AddRaw(COOKIE, a, false), AddRaw(COOKIE, b, false), Collect]).cookies == ParseCookies(a) + ParseCookies(b)
  {
    var one, two := AddRaw(COOKIE, a, false), AddRaw(COOKIE, b, false);
    OneHeader(a);
    TwoHeaders(a, b);
    hide ParseCookies, CookiesOf, Without, DoAll;
    var ops := [one];
    DoSnoc(ops, Collect);
    DoSnoc(ops + [Collect], two);
    DoSnoc(ops + [Collect] + [two], Collect);
    assert ops + [Collect] + [two] + [Collect] == [one, Collect, two, Collect];
    DoSnoc([one, two], Collect);
    assert [one, two] + [Collect] == [one, two, Collect];
  }

  lemma OneHeader(a: bytes)
    ensures DoAll([AddRaw(COOKIE, a, false)]) == Jar([KV(COOKIE, a, false)], [], false) && [] + CookiesOf([KV(COOKIE, a, false)]) == ParseCookies(a)
  {
    CookiesOne(KV(COOKIE, a, false));
    assert [AddRaw(COOKIE, a, false)][..0] == [];
  }

  lemma TwoHeaders(a: bytes, b: bytes)
    ensures var x, y := KV(COOKIE, a, false), KV(COOKIE, b, false);
      DoAll([AddRaw(COOKIE, a, false), AddRaw(COOKIE, b, false)]) == Jar([x, y], [], false) && [] + CookiesOf([x, y]) == ParseCookies(a) + ParseCookies(b)
  {
    var one, two, x, y := AddRaw(COOKIE, a, false), AddRaw(COOKIE, b, false), KV(COOKIE, a, false), KV(COOKIE, b, false);
    OneHeader(a);
    CookiesOne(x);
    CookiesOne(y);
    CookiesAppend([x], [y]);
    hide CookiesOf, ParseCookies;
    assert [x] + [y] == [x, y] && [one, two][..1] == [one];
  }

  /** `Cookie: a=1`, a look, `Cookie: b=2`, and a look again: `b` is missing. */
  lemma LateCookieMissed()
    ensures var a: bytes, b: bytes := ['a' as byte, EQUALS, '1' as byte], ['b' as byte, EQUALS, '2' as byte];
      var first, second := KV(['a' as byte], ['1' as byte], false), KV(['b' as byte], ['2' as byte], false);
      && DoAll([AddRaw(COOKIE, a, false), Collect, AddRaw(COOKIE, b, false), Collect]).cookies == [first]
      && DoAll([AddRaw(COOKIE, a, false), AddRaw(COOKIE, b, false), Collect]).cookies == [first] + [second]
  {
    hide ParseCookies, DoAll;
    ParseOne('a' as byte, '1' as byte);
    ParseOne('b' as byte, '2' as byte);
    LateCookies(['a' as byte, EQUALS, '1' as byte], ['b' as byte, EQUALS, '2' as byte]);
  }

  // ---------- the header object ----------

  lemma CookiesNext(s: seq<Slot>, p: nat)
    requires p < |s|
    ensures CookiesOf(Entries(s[..p + 1])) ==
            CookiesOf(Entries(s[..p])) + if s[p].kv.key == COOKIE then ParseCookies(s[p].kv.value) else []
  {
    var h := Entries(s[..p + 1]);
    assert h[..p] == Entries(s[..p]) && h[p] == s[p].kv;
  }

  /** The list `jar` holds `kvs`, in slots of its own. */
  ghost predicate Gathers(jar: KeyValues, a: array<Slot>, kvs: seq<KV>)
    reads jar, jar.slots
  {
    jar.Valid() && jar.Valued() && jar.slots != a && jar.Contents() == kvs
  }

  /** One Cookie header: parsed into `jar` and moved behind the live slots. */
  method TakeOne(a: array<Slot>, i: nat, n: nat, jar: KeyValues, ghost s: seq<Slot>, ghost live: nat, ghost p: nat, ghost had: seq<KV>)
    requires i < n <= a.Length && p < live <= |s| && a[i] == s[p] && s[p].kv.key == COOKIE
    requires Step(a[..], s, live, COOKIE, p, i, n) && Gathers(jar, a, had)
    modifies a, jar, jar.slots
    ensures Step(a[..], s, live, COOKIE, p + 1, i, n - 1)
    ensures Gathers(jar, a, had + ParseCookies(s[p].kv.value)) && (jar.slots == old(jar.slots) || fresh(jar.slots))
  {
    hide Step, Select, Reverse, Deleted, ParseCookies, Moved, KeyValues.Valid, KeyValues.Contents, KeyValues.Valued;
    StepMatch(a[..], s, live, COOKIE, p, i, n);
    jar.AppendCookies(a[i].kv.value);
    MoveBack(a, i, n);
  }

  /** Takes the Cookie headers out of the live slots, in place, and parses them into `jar` on the way. */
  method TakeCookies(a: array<Slot>, live: nat, jar: KeyValues) returns (n: nat)
    requires live <= a.Length && jar.Valid() && jar.Valued() && jar.slots != a
    modifies a, jar, jar.slots
    ensures n == |Select(old(a[..live]), COOKIE, false)| <= live
    ensures a[..] == old(Deleted(a[..live], COOKIE) + a[live..])
    ensures jar.Valid() && jar.Valued() && jar.Contents() == old(jar.Contents()) + CookiesOf(Entries(old(a[..live])))
    ensures jar.slots == old(jar.slots) || fresh(jar.slots)
  {
    n := live;
    var i := 0;
    ghost var s, had := a[..], jar.Contents();
    ghost var p := 0;
    StepStart(s, live, COOKIE);
    assert CookiesOf(Entries(s[..0])) == [] && had + [] == had;
    hide Step, Select, Reverse, Deleted, CookiesOf, Entries, ParseCookies, Moved, KeyValues.Valid, KeyValues.Contents, KeyValues.Valued;
    while i < n
      invariant 0 <= i <= n <= live && 0 <= p <= live
      invariant Step(a[..], s, live, COOKIE, p, i, n)
      invariant Gathers(jar, a, had + CookiesOf(Entries(s[..p]))) && (jar.slots == old(jar.slots) || fresh(jar.slots))
      decreases live - p
    {
      StepHead(a[..], s, live, COOKIE, p, i, n);
      CookiesNext(s, p);
      Appended(had, CookiesOf(Entries(s[..p])), ParseCookies(s[p].kv.value));
      if a[i].kv.key == COOKIE {
        TakeOne(a, i, n, jar, s, live, p, had + CookiesOf(Entries(s[..p])));
        n := n - 1;
      } else {
        StepKeep(a[..], s, live, COOKIE, p, i, n);
        i := i + 1;
      }
      p := p + 1;
    }
    StepEnd(a[..], s, live, COOKIE, p, i, n);
    assert s[..live] == old(a[..live]) && p == live;
  }

  /** Moves the Cookie headers of one list into another. */
  method MoveCookies(h: KeyValues, jar: KeyValues)
    requires h != jar && h.slots != jar.slots && h.Valid() && jar.Valid() && jar.Valued()
    modifies h`live, h.slots, jar, jar.slots
    ensures h.Valid() && h.Contents() == Without(old(h.Contents()), COOKIE) && multiset(h.slots[..]) == multiset(old(h.slots[..]))
    ensures jar.Valid() && jar.Valued() && jar.Contents() == old(jar.Contents()) + CookiesOf(old(h.Contents()))
    ensures jar.slots == old(jar.slots) || fresh(jar.slots)
  {
    hide Apart, Select, Deleted, Without, Entries, Reverse, CookiesOf;
    ghost var s, n, issued := h.slots[..], h.live, h.issued;
    DeletedPermutes(s[..n], COOKIE);
    SelectIsWithout(s[..n], COOKIE);
    h.live := TakeCookies(h.slots, h.live, jar);
    AfterDelete(h.slots[..], s, n, COOKIE, issued);
  }

  class RequestHeader {
    var h: KeyValues
    var cookies: KeyValues
    var cookiesCollected: bool

    ghost predicate Valid()
      reads this, h, h.slots, cookies, cookies.slots
    {
      h != cookies && h.slots != cookies.slots && h.Valid() && cookies.Valid() && cookies.Valued()
    }

    ghost function View(): Jar
      requires Valid()
      reads this, h, h.slots, cookies, cookies.slots
    {
      Jar(h.Contents(), cookies.Contents(), cookiesCollected)
    }

    constructor ()
      ensures Valid() && View() == DoAll([]) && fresh(h) && fresh(cookies) && fresh(h.slots) && fresh(cookies.slots)
    {
      h := new KeyValues();
      cookies := new KeyValues();
      cookiesCollected := false;
    }

    /** A header line as it arrives. */
    method AddArgBytes(key: bytes, value: bytes, noValue: bool)
      requires Valid()
      modifies this, h, h.slots
      ensures Valid() && View() == Do(old(View()), AddRaw(key, value, noValue))
      ensures h == old(h) && cookies == old(cookies) && (h.slots == old(h.slots) || fresh(h.slots))
    {
      hide KeyValues.Valid, KeyValues.Contents, KeyValues.Valued;
      h.Append(key, value, noValue);
    }

    /** Moves the Cookie headers out of the list and parses them, the first time only; the slots are only permuted. */
    method CollectCookies()
      requires Valid()
      modifies this, h, h.slots, cookies, cookies.slots
      ensures Valid() && View() == Do(old(View()), Collect)
      ensures h == old(h) && cookies == old(cookies) && h.slots == old(h.slots) && multiset(h.slots[..]) == multiset(old(h.slots[..]))
      ensures cookies.slots == old(cookies.slots) || fresh(cookies.slots)
    {
      hide KeyValues.Valid, KeyValues.Contents, KeyValues.Valued, CookiesOf, Without;
      if !cookiesCollected {
        MoveCookies(h, cookies);
        cookiesCollected := true;
      }
    }

    /** A header set by a caller: a Cookie header is parsed at once, behind those that waited. */
    method Set(key: bytes, value: bytes)
      requires Valid()
      modifies this, h, h.slots, cookies, cookies.slots
      ensures Valid() && View() == Do(old(View()), SetHeader(key, value))
      ensures h == old(h) && cookies == old(cookies)
      ensures (h.slots == old(h.slots) || fresh(h.slots)) && (cookies.slots == old(cookies.slots) || fresh(cookies.slots))
    {
      hide KeyValues.Valid, KeyValues.Contents, KeyValues.Valued, CookiesOf, Without, SetIn, ParseCookies, CookieKey;
      if CookieKey(key) {
        CollectCookies();
        cookies.AppendCookies(value);
      } else {
        h.Set(key, value, false);
      }
    }

    /** Replays operations on a fresh header and looks at the cookies. */
    static method Replay(ops: seq<Op>) returns (r: RequestHeader)
      ensures fresh(r) && r.Valid() && r.View() == DoAll(ops + [Collect])
      ensures Seen(r.View().headers, r.View().cookies) == Eager(ops) <==> !TooLate(ops)
    {
      r := new RequestHeader();
      hide KeyValues.Valid, KeyValues.Contents, KeyValues.Valued, Do, See;
      for i := 0 to |ops|
        invariant fresh(r) && fresh(r.h) && fresh(r.cookies) && fresh(r.h.slots) && fresh(r.cookies.slots)
        invariant r.Valid() && r.View() == DoAll(ops[..i])
      {
        match ops[i] {
          case AddRaw(key, value, noValue) => r.AddArgBytes(key, value, noValue);
          case SetHeader(key, value) => r.Set(key, value);
          case Collect => r.CollectCookies();
        }
        assert ops[..i + 1][..i] == ops[..i];
      }
      r.CollectCookies();
      assert ops[..|ops|] == ops && (ops + [Collect])[..|ops|] == ops;
      LazyIsEager(ops);
    }
  }
}
