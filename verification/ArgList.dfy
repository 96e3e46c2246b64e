/**
 * The slots behind a key-value list. A slot keeps its byte buffers when its entry is deleted or
 * overwritten, so the buffers must stay apart: `buffer` names the pair a slot owns.
 */
module ArgList {

  import opened ByteCodec
  import opened Args
  import opened Options

  datatype Slot = Slot(buffer: nat, kv: KV)

  function Entries(s: seq<Slot>): (r: seq<KV>)
    ensures |r| == |s| && forall i :: 0 <= i < |s| ==> r[i] == s[i].kv
  {
    seq(|s|, i requires 0 <= i < |s| => s[i].kv)
  }

  /** No two slots share a buffer. */
  ghost predicate Apart(s: seq<Slot>) { forall i, j :: 0 <= i < j < |s| ==> s[i].buffer != s[j].buffer }

  lemma Twice(s: seq<Slot>, i: nat, j: nat)
    requires i < j < |s| && s[i] == s[j]
    ensures multiset(s)[s[i]] >= 2
  {
    assert s == s[..i] + [s[i]] + s[i + 1..];
    assert s[i + 1..][j - i - 1] == s[j];
    assert s[j] in s[i + 1..];
  }

  lemma {:induction false} Once(s: seq<Slot>, x: Slot)
    requires Apart(s)
    ensures multiset(s)[x] <= 1
  {
    if s != [] {
      assert s == [s[0]] + s[1..];
      Once(s[1..], x);
      assert s[0] !in s[1..];
    }
  }

  /** A permutation keeps the buffers apart. */
  lemma PermutedApart(s: seq<Slot>, t: seq<Slot>)
    requires Apart(s) && multiset(t) == multiset(s)
    ensures Apart(t)
  {
    forall i, j | 0 <= i < j < |t| ensures t[i].buffer != t[j].buffer {
      Once(s, t[i]);
      if t[i] == t[j] { Twice(t, i, j); }
      assert t[i] in multiset(t) && t[j] in multiset(t);
      assert t[i] in s && t[j] in s;
    }
  }

  /** The slots with the key, or those without it, in order. */
  function Select(s: seq<Slot>, key: bytes, with: bool): seq<Slot> {
    if s == [] then [] else
    Select(s[..|s| - 1], key, with) + if (s[|s| - 1].kv.key == key) == with then [s[|s| - 1]] else []
  }

  function Reverse(s: seq<Slot>): seq<Slot> { if s == [] then [] else [s[|s| - 1]] + Reverse(s[..|s| - 1]) }

  /** What deletion leaves: the entries without the key, then the freed slots, last freed first. */
  function Deleted(s: seq<Slot>, key: bytes): seq<Slot> { Select(s, key, false) + Reverse(Select(s, key, true)) }

  lemma MultisetSnoc(s: seq<Slot>, x: Slot)
    ensures multiset(s + [x]) == multiset(s) + multiset{x} && multiset([x] + s) == multiset(s) + multiset{x} && s + [] == s
  {
  }

  lemma Regroup(a: multiset<Slot>, b: multiset<Slot>, x: multiset<Slot>)
    ensures (a + x) + b == (a + b) + x && a + (b + x) == (a + b) + x
  {
  }

  lemma SelectLast(s: seq<Slot>, key: bytes, with: bool)
    requires s != []
    ensures var init, x := s[..|s| - 1], s[|s| - 1];
      s == init + [x] && Select(s, key, with) == if (x.kv.key == key) == with then Select(init, key, with) + [x] else Select(init, key, with)
  {
  }

  lemma {:induction false} SelectSplits(s: seq<Slot>, key: bytes)
    ensures multiset(Select(s, key, false)) + multiset(Select(s, key, true)) == multiset(s)
  {
    if s == [] { return; }
    SelectLast(s, key, false);
    SelectLast(s, key, true);
    hide Select;
    var init, x := s[..|s| - 1], s[|s| - 1];
    SelectSplits(init, key);
    var kept, freed := Select(init, key, false), Select(init, key, true);
    MultisetSnoc(init, x);
    MultisetSnoc(kept, x);
    MultisetSnoc(freed, x);
    Regroup(multiset(kept), multiset(freed), multiset{x});
  }

  lemma {:induction false} ReversePermutes(s: seq<Slot>)
    ensures multiset(Reverse(s)) == multiset(s)
  {
    if s != [] {
      var init, x := s[..|s| - 1], s[|s| - 1];
      ReversePermutes(init);
      assert s == init + [x] && Reverse(s) == [x] + Reverse(init);
      hide Reverse;
      MultisetSnoc(init, x);
      MultisetSnoc(Reverse(init), x);
    }
  }

  /** Deletion permutes the slots. */
  lemma DeletedPermutes(s: seq<Slot>, key: bytes)
    ensures multiset(Deleted(s, key)) == multiset(s) && |Deleted(s, key)| == |s|
  {
    SelectSplits(s, key);
    ReversePermutes(Select(s, key, true));
    assert |s| == |multiset(s)| && |Deleted(s, key)| == |multiset(Deleted(s, key))|;
  }

  /** The entries deletion keeps are those without the key, in order. */
  function Without(args: seq<KV>, key: bytes): seq<KV> {
    if args == [] then [] else (if args[0].key == key then [] else [args[0]]) + Without(args[1..], key)
  }

  lemma {:induction false} WithoutAppend(a: seq<KV>, b: seq<KV>, key: bytes)
    ensures Without(a + b, key) == Without(a, key) + Without(b, key)
  {
    if a == [] {
      assert a + b == b;
    } else {
      assert (a + b)[1..] == a[1..] + b;
      WithoutAppend(a[1..], b, key);
    }
  }

  lemma {:induction false} SelectIsWithout(s: seq<Slot>, key: bytes)
    ensures Entries(Select(s, key, false)) == Without(Entries(s), key)
  {
    if s != [] {
      var n := |s| - 1;
      SelectIsWithout(s[..n], key);
      WithoutAppend(Entries(s[..n]), [s[n].kv], key);
      assert Entries(s) == Entries(s[..n]) + [s[n].kv];
      var one := [s[n].kv];
      assert one[1..] == [];
      assert Without(one, key) == if s[n].kv.key == key then [] else one;
      var kept := Select(s[..n], key, false);
      assert Entries(kept + [s[n]]) == Entries(kept) + one;
      assert kept + [] == kept;
    }
  }

  function Moved(s: seq<Slot>, i: nat, n: nat): seq<Slot>
    requires i < n <= |s|
  {
    s[..i] + s[i + 1..n] + [s[i]] + s[n..]
  }

  lemma MovedAt(s: seq<Slot>, i: nat, n: nat)
    requires i < n <= |s|
    ensures |Moved(s, i, n)| == |s|
    ensures forall k :: 0 <= k < |s| ==> Moved(s, i, n)[k] == s[if i <= k < n - 1 then k + 1 else if k == n - 1 then i else k]
  {
  }

  /** Moves the entry at `i` behind the live ones, which close up. */
  method MoveBack(a: array<Slot>, i: nat, n: nat)
    requires i < n <= a.Length
    modifies a
    ensures a[..] == Moved(old(a[..]), i, n)
  {
    MovedAt(a[..], i, n);
    hide Moved;
    var tmp := a[i];
    forall k | i <= k < n - 1 { a[k] := a[k + 1]; }
    a[n - 1] := tmp;
  }

  /** One entry with the key. */
  method DelOne(a: array<Slot>, i: nat, n: nat, ghost s: seq<Slot>, ghost live: nat, ghost key: bytes, ghost p: nat)
    requires i < n <= a.Length && p < live <= |s| && s[p].kv.key == key && Step(a[..], s, live, key, p, i, n)
    modifies a
    ensures Step(a[..], s, live, key, p + 1, i, n - 1)
  {
    StepMatch(a[..], s, live, key, p, i, n);
    hide Step, Moved;
    MoveBack(a, i, n);
  }

  /** Deletes every entry with the key, in place; the result is the new number of live entries. */
  method DelAll(a: array<Slot>, live: nat, key: bytes) returns (n: nat)
    requires live <= a.Length
    modifies a
    ensures n == |Select(old(a[..live]), key, false)| <= live
    ensures a[..] == old(Deleted(a[..live], key) + a[live..])
  {
    n := live;
    var i := 0;
    ghost var s := a[..];
    ghost var p := 0;
    StepStart(s, live, key);
    hide Step, Select, Reverse, Deleted;
    while i < n
      invariant 0 <= i <= n <= live && 0 <= p <= live
      invariant Step(a[..], s, live, key, p, i, n)
      decreases live - p
    {
      StepHead(a[..], s, live, key, p, i, n);
      if a[i].kv.key == key {
        DelOne(a, i, n, s, live, key, p);
        n := n - 1;
      } else {
        StepKeep(a[..], s, live, key, p, i, n);
        i := i + 1;
      }
      p := p + 1;
    }
    StepEnd(a[..], s, live, key, p, i, n);
    assert s[..live] == old(a[..live]);
  }

  /** The state of the deletion after `p` of the old entries. */
  ghost predicate Step(a: seq<Slot>, s: seq<Slot>, live: nat, key: bytes, p: nat, i: nat, n: nat) {
    && p <= live <= |s| && i == |Select(s[..p], key, false)| && n == i + live - p
    && a == Select(s[..p], key, false) + s[p..live] + Reverse(Select(s[..p], key, true)) + s[live..]
  }

  lemma StepStart(s: seq<Slot>, live: nat, key: bytes)
    requires live <= |s|
    ensures Step(s, s, live, key, 0, 0, live)
  {
    assert s[..0] == [] && s == s[0..live] + s[live..];
  }

  /** One more of the old entries. */
  lemma SelectNext(s: seq<Slot>, key: bytes, p: nat, with: bool)
    requires p < |s|
    ensures Select(s[..p + 1], key, with) == Select(s[..p], key, with) + if (s[p].kv.key == key) == with then [s[p]] else []
  {
    assert s[..p + 1][..p] == s[..p];
  }

  /** Moving `x` behind `rest`. */
  lemma MoveConcat(kept: seq<Slot>, x: Slot, rest: seq<Slot>, freed: seq<Slot>, spare: seq<Slot>)
    ensures var a, i, n := kept + ([x] + rest) + freed + spare, |kept|, |kept| + 1 + |rest|;
      Moved(a, i, n) == kept + rest + ([x] + freed) + spare
  {
    var a, i, n := kept + ([x] + rest) + freed + spare, |kept|, |kept| + 1 + |rest|;
    assert a[..i] == kept;
    assert a[i] == x;
    assert a[i + 1..n] == rest;
    assert a[n..] == freed + spare;
  }

  lemma StepMatch(a: seq<Slot>, s: seq<Slot>, live: nat, key: bytes, p: nat, i: nat, n: nat)
    requires Step(a, s, live, key, p, i, n) && i < n && s[p].kv.key == key
    ensures n <= |a| && Step(Moved(a, i, n), s, live, key, p + 1, i, n - 1)
  {
    SelectNext(s, key, p, false);
    SelectNext(s, key, p, true);
    var kept, freed := Select(s[..p], key, false), Select(s[..p], key, true);
    assert (freed + [s[p]])[..|freed|] == freed;
    assert Reverse(freed + [s[p]]) == [s[p]] + Reverse(freed);
    assert Select(s[..p + 1], key, false) == kept && Select(s[..p + 1], key, true) == freed + [s[p]];
    hide Select, Reverse;
    assert s[p..live] == [s[p]] + s[p + 1..live];
    hide Moved;
    MoveConcat(kept, s[p], s[p + 1..live], Reverse(freed), s[live..]);
  }

  lemma StepKeep(a: seq<Slot>, s: seq<Slot>, live: nat, key: bytes, p: nat, i: nat, n: nat)
    requires Step(a, s, live, key, p, i, n) && i < n && s[p].kv.key != key
    ensures Step(a, s, live, key, p + 1, i + 1, n)
  {
    SelectNext(s, key, p, false);
    SelectNext(s, key, p, true);
    var kept := Select(s[..p], key, false);
    assert Select(s[..p + 1], key, true) == Select(s[..p], key, true);
    hide Select, Reverse;
    assert s[p..live] == [s[p]] + s[p + 1..live];
    assert kept + ([s[p]] + s[p + 1..live]) == kept + [s[p]] + s[p + 1..live];
  }

  lemma StepEnd(a: seq<Slot>, s: seq<Slot>, live: nat, key: bytes, p: nat, i: nat, n: nat)
    requires Step(a, s, live, key, p, i, n) && i >= n
    ensures p == live && n == |Select(s[..live], key, false)| && a == Deleted(s[..live], key) + s[live..]
  {
    hide Select, Reverse;
    var kept := Select(s[..live], key, false);
    assert p == live && s[live..live] == [] && kept + [] == kept;
  }

  lemma StepHead(a: seq<Slot>, s: seq<Slot>, live: nat, key: bytes, p: nat, i: nat, n: nat)
    requires Step(a, s, live, key, p, i, n) && i < n
    ensures p < live && n <= |a| && a[i] == s[p]
  {
    hide Select, Reverse;
  }

  // ---------- the list ----------

  function Settle(key: bytes, value: bytes, noValue: bool): KV { KV(key, if noValue then [] else value, noValue) }

  /** The position of the first entry with the key, or the length. */
  function Position(args: seq<KV>, key: bytes): (n: nat)
    ensures n <= |args| && (n < |args| ==> args[n].key == key) && forall i :: 0 <= i < n ==> args[i].key != key
  {
    if args == [] || args[0].key == key then 0 else 1 + Position(args[1..], key)
  }

  /** The first entry with the key replaced, or one more entry. */
  function SetIn(args: seq<KV>, kv: KV): seq<KV> {
    var n := Position(args, kv.key);
    if n < |args| then args[n := kv] else args + [kv]
  }

  /** The first entry with the key. */
  function Peek(args: seq<KV>, key: bytes): Option<KV> {
    var n := Position(args, key);
    if n < |args| then Some(args[n]) else None
  }

  /** What setting a key and deleting one change for everybody who asks. */
  lemma SetThenPeek(args: seq<KV>, kv: KV, key: bytes)
    ensures Peek(SetIn(args, kv), key) == if key == kv.key then Some(kv) else Peek(args, key)
  {
    hide Position;
    var t, n := SetIn(args, kv), Position(args, key);
    PositionIs(t, key, if key == kv.key then Position(args, key) else if n < |args| then n else |t|);
  }

  lemma PositionIs(args: seq<KV>, key: bytes, n: nat)
    requires n <= |args| && (n < |args| ==> args[n].key == key) && forall i :: 0 <= i < n ==> args[i].key != key
    ensures Position(args, key) == n
  {
    hide Position;
    var m := Position(args, key);
  }

  lemma PeekNext(args: seq<KV>, key: bytes)
    requires args != []
    ensures Peek(args, key) == if args[0].key == key then Some(args[0]) else Peek(args[1..], key)
  {
  }

  lemma {:induction false} DelThenPeek(args: seq<KV>, key: bytes, k: bytes)
    ensures Peek(Without(args, key), k) == if k == key then None else Peek(args, k)
  {
    if args != [] {
      DelThenPeek(args[1..], key, k);
      var rest := Without(args[1..], key);
      assert [] + rest == rest && ([args[0]] + rest)[1..] == rest;
      PeekNext(args, k);
      if args[0].key != key { PeekNext([args[0]] + rest, k); }
      hide Peek;
    }
  }

  class KeyValues {
    var slots: array<Slot>
    var live: nat
    var issued: nat

    /** The live entries are a prefix of the slots, and no two slots, live or spare, share a buffer. */
    ghost predicate Valid()
      reads this, slots
    {
      live <= slots.Length && Apart(slots[..]) && forall i :: 0 <= i < slots.Length ==> slots[i].buffer < issued
    }

    ghost function Contents(): seq<KV>
      requires Valid()
      reads this, slots
    {
      Entries(slots[..live])
    }

    /** No slot carries the no-value flag. */
    ghost predicate Valued()
      reads this, slots
    {
      forall i :: 0 <= i < slots.Length ==> !slots[i].kv.noValue
    }

    constructor ()
      ensures Valid() && Valued() && Contents() == [] && fresh(slots)
    {
      slots, live, issued := new Slot[0], 0, 0;
    }

    /** Makes one more slot live, reusing a spare one with its buffers when there is one. */
    method Alloc()
      requires Valid()
      modifies this
      ensures Valid() && live == old(live) + 1 && Contents()[..old(live)] == old(Contents())
      ensures if old(live) < old(slots.Length) then slots == old(slots) else fresh(slots)
      ensures old(Valued()) ==> Valued()
    {
      if live == slots.Length {
        var capacity: nat :| capacity > live;
        var s, base := slots[..], issued;
        var bigger := new Slot[capacity](i requires 0 <= i < capacity => if i < |s| then s[i] else Slot(base + i, KV([], [], false)));
        slots, issued := bigger, issued + capacity;
        assert slots[..live] == s;
      }
      live := live + 1;
      assert slots[..live][..live - 1] == slots[..live - 1];
    }

    /** Overwrites one live entry; the slot keeps its buffers. */
    method Write(i: nat, kv: KV)
      requires Valid() && i < live
      modifies slots
      ensures Valid() && Contents() == old(Contents())[i := kv]
      ensures old(Valued()) && !kv.noValue ==> Valued()
    {
      slots[i] := Slot(slots[i].buffer, kv);
    }

    method Append(key: bytes, value: bytes, noValue: bool)
      requires Valid()
      modifies this, slots
      ensures Valid() && Contents() == old(Contents()) + [Settle(key, value, noValue)]
      ensures slots == old(slots) || fresh(slots)
    {
      ghost var before := Contents();
      Alloc();
      assert Contents()[..|before|] == before;
      Write(live - 1, Settle(key, value, noValue));
    }

    /** Replaces the first entry with the key, or appends one. */
    method Set(key: bytes, value: bytes, noValue: bool)
      requires Valid()
      modifies this, slots
      ensures Valid() && Contents() == SetIn(old(Contents()), Settle(key, value, noValue))
      ensures slots == old(slots) || fresh(slots)
    {
      ghost var was := Contents();
      var i := 0;
      while i < live && slots[i].kv.key != key
        invariant i <= live
        invariant forall k :: 0 <= k < i ==> was[k].key != key
      {
        i := i + 1;
      }
      if i < live {
        assert Position(was, key) == i;
        Write(i, Settle(key, value, noValue));
      } else {
        assert Position(was, key) == |was|;
        Append(key, value, noValue);
      }
    }

    /** The value of the first entry with the key. */
    method PeekValue(key: bytes) returns (value: bytes, ok: bool)
      requires Valid()
      ensures var kv := Peek(Contents(), key); ok == kv.Some? && value == if ok then kv.value.value else []
    {
      for i := 0 to live
        invariant forall k :: 0 <= k < i ==> Contents()[k].key != key
      {
        if slots[i].kv.key == key {
          PositionIs(Contents(), key, i);
          return slots[i].kv.value, true;
        }
      }
      PositionIs(Contents(), key, live);
      return [], false;
    }

    /** Removes every entry with the key; the slots are only permuted. */
    method Del(key: bytes)
      requires Valid()
      modifies this, slots
      ensures Valid() && Contents() == Without(old(Contents()), key)
      ensures slots == old(slots) && multiset(slots[..]) == multiset(old(slots[..]))
    {
      hide Apart, Select, Deleted, Without, Entries, Reverse;
      ghost var s, n := slots[..], live;
      DeletedPermutes(s[..n], key);
      SelectIsWithout(s[..n], key);
      live := DelAll(slots, live, key);
      AfterDelete(slots[..], s, n, key, issued);
    }

    /** The last live slot is being filled; the entries before it are `done`. */
    ghost predicate Filling(done: seq<KV>)
      reads this, slots
    {
      Valid() && live > 0 && Contents()[..live - 1] == done
    }

    /** Makes a slot to fill. */
    method Begin()
      requires Valid()
      modifies this
      ensures Filling(old(Contents())) && (slots == old(slots) || fresh(slots))
      ensures old(Valued()) ==> Valued()
    {
      hide Apart, Entries;
      Alloc();
    }

    /** Fills the last slot and makes another unless the entry is empty. */
    method Keep(kv: KV, ghost done: seq<KV>)
      requires Filling(done)
      modifies this, slots
      ensures Filling(if Nonempty(kv) then done + [kv] else done)
      ensures slots == old(slots) || fresh(slots)
      ensures old(Valued()) && !kv.noValue ==> Valued()
    {
      hide Apart, Entries;
      Write(live - 1, kv);
      if |kv.key| > 0 || |kv.value| > 0 {
        assert Contents() == done + [kv];
        Begin();
      }
    }

    /** Gives the slot that was not filled back. */
    method End(ghost done: seq<KV>)
      requires Filling(done)
      modifies this`live
      ensures Valid() && Contents() == done
      ensures old(Valued()) ==> Valued()
    {
      ghost var all := Contents();
      live := live - 1;
      assert Contents() == all[..live];
    }

    /** Reads a query string into the list, from its first slot on. */
    method ParseBytes(b: bytes)
      requires Valid()
      modifies this, slots
      ensures Valid() && Contents() == ParseQuery(b)
      ensures slots == old(slots) || fresh(slots)
    {
      assert ParseQuery([]) == [] && Entries([]) == [];
      live := 0;
      assert slots[..0] == [];
      hide Apart, ParseQuery, QuerySegment, Rest, Entries, Only, Nonempty;
      var rest := b;
      Begin();
      ghost var done: seq<KV> := [];
      hide Filling;
      while rest != []
        invariant Filling(done) && (slots == old(slots) || fresh(slots))
        invariant done + ParseQuery(rest) == ParseQuery(b)
        decreases |rest|
      {
        var kv, tail := ScanQuery(rest);
        ParseNext(rest, done, kv);
        Keep(kv, done);
        rest, done := tail, if Nonempty(kv) then done + [kv] else done;
      }
      End(done);
      assert done + [] == done;
    }

    /** Reads a Cookie header behind the entries there are; the scanner leaves the no-value flag of a slot alone. */
    method AppendCookies(src: bytes)
      requires Valid() && Valued()
      modifies this, slots
      ensures Valid() && Valued() && Contents() == old(Contents()) + ParseCookies(src)
      ensures slots == old(slots) || fresh(slots)
    {
      assert ParseCookies([]) == [];
      hide Apart, ParseCookies, CookieSegment, Rest, Entries, Only, Nonempty;
      ghost var done := Contents();
      assert done + ParseCookies(src) == old(Contents()) + ParseCookies(src);
      var rest := src;
      Begin();
      while rest != []
        invariant Filling(done) && Valued() && (slots == old(slots) || fresh(slots))
        invariant done + ParseCookies(rest) == old(Contents()) + ParseCookies(src)
        decreases |rest|
      {
        var key, value, tail := ScanCookie(rest);
        var kv := KV(key, value, slots[live - 1].kv.noValue);
        CookieNext(rest, done, kv);
        Keep(kv, done);
        rest, done := tail, if Nonempty(kv) then done + [kv] else done;
      }
      End(done);
      assert done + [] == done;
    }
  }

  lemma CookieNext(b: bytes, done: seq<KV>, kv: KV)
    requires b != [] && kv == CookieSegment(b[..First(b, SEMICOLON)])
    ensures done + ParseCookies(b) == (if Nonempty(kv) then done + [kv] else done) + ParseCookies(Rest(b, SEMICOLON))
  {
    var tail := ParseCookies(Rest(b, SEMICOLON));
    hide First, CookieSegment, Rest;
    assert done + ([kv] + tail) == done + [kv] + tail && done + ([] + tail) == done + tail;
  }

  lemma ParseNext(b: bytes, done: seq<KV>, kv: KV)
    requires b != [] && kv == QuerySegment(b[..First(b, AMP)])
    ensures done + ParseQuery(b) == (if Nonempty(kv) then done + [kv] else done) + ParseQuery(Rest(b, AMP))
  {
    var tail := ParseQuery(Rest(b, AMP));
    hide First, QuerySegment, Rest;
    assert done + ([kv] + tail) == done + [kv] + tail && done + ([] + tail) == done + tail;
  }

  /** The buffers after a deletion. */
  lemma AfterDelete(t: seq<Slot>, s: seq<Slot>, n: nat, key: bytes, issued: int)
    requires Apart(s) && n <= |s| && t == Deleted(s[..n], key) + s[n..]
    requires multiset(Deleted(s[..n], key)) == multiset(s[..n])
    ensures Apart(t) && multiset(t) == multiset(s) && |t| == |s|
    ensures var m := |Select(s[..n], key, false)|; m <= |t| && t[..m] == Select(s[..n], key, false)
    ensures (forall i :: 0 <= i < |s| ==> s[i].buffer < issued) ==> (forall i :: 0 <= i < |t| ==> t[i].buffer < issued)
  {
    DeletedPrefix(s[..n], key, s[n..]);
    hide Deleted, Select, Apart;
    PermutedFront(Deleted(s[..n], key), s, n);
    PermutedApart(s, t);
    PermutedSame(s, t);
  }

  lemma PermutedFront(d: seq<Slot>, s: seq<Slot>, n: nat)
    requires n <= |s| && multiset(d) == multiset(s[..n])
    ensures multiset(d + s[n..]) == multiset(s)
  {
    assert s == s[..n] + s[n..];
  }

  lemma DeletedPrefix(s: seq<Slot>, key: bytes, spare: seq<Slot>)
    ensures var t, m := Deleted(s, key) + spare, |Select(s, key, false)|; m <= |t| && t[..m] == Select(s, key, false)
  {
    hide Select, Reverse;
  }

  lemma PermutedSame(s: seq<Slot>, t: seq<Slot>)
    requires multiset(t) == multiset(s)
    ensures |t| == |s| && forall i :: 0 <= i < |t| ==> t[i] in s
  {
    assert |multiset(t)| == |t| && |multiset(s)| == |s|;
    forall i | 0 <= i < |t| ensures t[i] in s { assert t[i] in multiset(t); }
  }
}
