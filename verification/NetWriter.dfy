/**
 * The buffered network writer: regions are handed out of shared buffers and filled later, large
 * slices are borrowed, and a flush emits everything in call order.
 */
module NetWriter {

  import opened ByteCodec

  const SIZE_4K: int := 1024 * 4

  /** Bytes `lo` to `hi` of an array; `own` when the array is one of the writer's buffers. */
  datatype Slice = Slice(a: array<byte>, lo: int, hi: int, own: bool)

  ghost predicate Fits(r: Slice) { 0 <= r.lo <= r.hi <= r.a.Length }

  ghost function Bytes(r: Slice): bytes
    requires Fits(r)
    reads r.a
  {
    r.a[r.lo..r.hi]
  }

  /** The slices one after the other. */
  ghost function Concat(rs: seq<Slice>): bytes
    requires forall r :: r in rs ==> Fits(r)
    reads set r | r in rs :: r.a
  {
    if rs == [] then [] else
    assert forall r :: r in rs[..|rs| - 1] ==> r in rs;
    Concat(rs[..|rs| - 1]) + Bytes(rs[|rs| - 1])
  }

  /** One entry of the writer's list: `data` is the first `len` bytes of an array with room for more, or a borrowed slice. */
  datatype Node = Node(data: Slice, readOnly: bool)

  /** The regions `rs` lie one after the other in `a` and fill it up to `n`. */
  ghost predicate Tiles(a: array<byte>, rs: seq<Slice>, n: int) {
    if rs == [] then n == 0 else
    var last := rs[|rs| - 1];
    last.a == a && last.own && 0 <= last.lo <= last.hi == n <= a.Length && Tiles(a, rs[..|rs| - 1], last.lo)
  }

  /** The regions handed out for one node. */
  ghost predicate Covers(n: Node, rs: seq<Slice>) {
    if n.readOnly then rs == [n.data] && Fits(n.data) && !n.data.own
    else n.data.own && n.data.lo == 0 && Fits(n.data) && Tiles(n.data.a, rs, n.data.hi)
  }

  ghost function Flat(groups: seq<seq<Slice>>): seq<Slice> {
    if groups == [] then [] else Flat(groups[..|groups| - 1]) + groups[|groups| - 1]
  }

  // ---------- tiles ----------

  lemma {:induction false} TilesFit(a: array<byte>, rs: seq<Slice>, n: int)
    requires Tiles(a, rs, n)
    ensures forall r :: r in rs ==> Fits(r) && r.a == a && r.own && r.hi <= n
    ensures forall i, j :: 0 <= i < j < |rs| ==> rs[i].hi <= rs[j].lo
  {
    if rs != [] {
      TilesFit(a, rs[..|rs| - 1], rs[|rs| - 1].lo);
      assert rs == rs[..|rs| - 1] + [rs[|rs| - 1]];
    }
  }

  lemma {:induction false} TilesConcat(a: array<byte>, rs: seq<Slice>, n: int)
    requires Tiles(a, rs, n) && 0 <= n <= a.Length
    requires forall r :: r in rs ==> Fits(r)
    ensures Concat(rs) == a[..n]
  {
    if rs != [] {
      var last := rs[|rs| - 1];
      assert forall r :: r in rs[..|rs| - 1] ==> r in rs;
      TilesConcat(a, rs[..|rs| - 1], last.lo);
      assert a[..n] == a[..last.lo] + a[last.lo..n];
    }
  }

  lemma {:induction false} ConcatAppend(xs: seq<Slice>, ys: seq<Slice>)
    requires forall r :: r in xs + ys ==> Fits(r)
    requires forall r :: r in xs ==> Fits(r)
    requires forall r :: r in ys ==> Fits(r)
    ensures Concat(xs + ys) == Concat(xs) + Concat(ys)
  {
    if ys == [] {
      assert xs + ys == xs;
    } else {
      var rest := ys[..|ys| - 1];
      assert (xs + ys)[..|xs + ys| - 1] == xs + rest;
      assert forall r :: r in xs + rest ==> r in xs + ys;
      assert forall r :: r in rest ==> r in ys;
      ConcatAppend(xs, rest);
    }
  }

  // ---------- the writer ----------

  /** Each group covers its node, and no two nodes share a buffer. */
  ghost predicate Layout(caches: seq<Node>, groups: seq<seq<Slice>>) {
    && |groups| == |caches|
    && (forall i :: 0 <= i < |caches| ==> Covers(caches[i], groups[i]))
    && (forall i, j :: 0 <= i < j < |caches| && !caches[i].readOnly && !caches[j].readOnly ==> caches[i].data.a != caches[j].data.a)
  }

  ghost predicate InBuffers(caches: seq<Node>, buffers: set<array<byte>>) {
    && (forall i :: 0 <= i < |caches| && !caches[i].readOnly ==> caches[i].data.a in buffers)
    && (forall a :: a in buffers ==> exists i :: 0 <= i < |caches| && !caches[i].readOnly && caches[i].data.a == a)
  }

  lemma LayoutPush(caches: seq<Node>, groups: seq<seq<Slice>>, n: Node, rs: seq<Slice>)
    requires Layout(caches, groups) && Covers(n, rs)
    requires n.readOnly || exists known :: InBuffers(caches, known) && n.data.a !in known
    ensures Layout(caches + [n], groups + [rs])
  {
    hide Covers;
  }

  lemma LayoutExtend(caches: seq<Node>, groups: seq<seq<Slice>>, n: Node, rs: seq<Slice>)
    requires Layout(caches, groups) && caches != [] && Covers(n, rs) && !n.readOnly
    requires !caches[|caches| - 1].readOnly && n.data.a == caches[|caches| - 1].data.a
    ensures Layout(caches[|caches| - 1 := n], groups[|groups| - 1 := rs])
  {
    hide Covers;
  }

  ghost predicate Sound(caches: seq<Node>, groups: seq<seq<Slice>>, regions: seq<Slice>, buffers: set<array<byte>>) {
    Layout(caches, groups) && regions == Flat(groups) && InBuffers(caches, buffers)
  }

  /** One more node with one region: a borrowed slice, or a buffer that is new. */
  lemma SoundPush(caches: seq<Node>, groups: seq<seq<Slice>>, regions: seq<Slice>, buffers: set<array<byte>>, n: Node, r: Slice)
    requires Sound(caches, groups, regions, buffers) && Covers(n, [r]) && (n.readOnly || n.data.a !in buffers)
    ensures Sound(caches + [n], groups + [[r]], regions + [r], if n.readOnly then buffers else buffers + {n.data.a})
  {
    LayoutPush(caches, groups, n, [r]);
    FlatPush(groups, r);
    BuffersPush(caches, buffers, n);
    hide Layout, Covers, InBuffers, Flat;
  }

  lemma BuffersPush(caches: seq<Node>, buffers: set<array<byte>>, n: Node)
    requires InBuffers(caches, buffers)
    ensures InBuffers(caches + [n], if n.readOnly then buffers else buffers + {n.data.a})
  {
    var after, all := caches + [n], if n.readOnly then buffers else buffers + {n.data.a};
    assert after[|caches|] == n;
    forall a | a in all ensures exists i :: 0 <= i < |after| && !after[i].readOnly && after[i].data.a == a {
      if a in buffers {
        var i :| 0 <= i < |caches| && !caches[i].readOnly && caches[i].data.a == a;
        assert after[i] == caches[i];
      }
    }
  }

  /** One more region in the last buffer. */
  lemma SoundExtend(caches: seq<Node>, groups: seq<seq<Slice>>, regions: seq<Slice>, buffers: set<array<byte>>, n: Node, r: Slice)
    requires Sound(caches, groups, regions, buffers) && caches != [] && !n.readOnly && !caches[|caches| - 1].readOnly
    requires n.data.a == caches[|caches| - 1].data.a && Covers(n, groups[|groups| - 1] + [r])
    ensures Sound(caches[|caches| - 1 := n], groups[|groups| - 1 := groups[|groups| - 1] + [r]], regions + [r], buffers)
  {
    var k := |caches| - 1;
    LayoutExtend(caches, groups, n, groups[k] + [r]);
    FlatLast(groups, r);
    hide Layout, Covers, Flat;
    var after := caches[k := n];
    forall a | a in buffers ensures exists i :: 0 <= i < |after| && !after[i].readOnly && after[i].data.a == a {
      var i :| 0 <= i < |caches| && !caches[i].readOnly && caches[i].data.a == a;
      assert i != k ==> after[i] == caches[i];
      assert after[k] == n;
    }
  }

  /** Two regions in the same buffer do not overlap, and the earlier one lies before. */
  ghost predicate Apart(rs: seq<Slice>) {
    forall i, j :: 0 <= i < j < |rs| && rs[i].own && rs[j].own && rs[i].a == rs[j].a ==> rs[i].hi <= rs[j].lo
  }

  lemma {:induction false} Disjoint(caches: seq<Node>, groups: seq<seq<Slice>>)
    requires Layout(caches, groups)
    ensures Apart(Flat(groups))
    ensures forall r :: r in Flat(groups) ==> Fits(r)
    ensures forall r :: r in Flat(groups) && r.own ==> exists k :: 0 <= k < |caches| && !caches[k].readOnly && caches[k].data.a == r.a
  {
    if groups != [] {
      var n := |groups| - 1;
      Disjoint(caches[..n], groups[..n]);
      var last := groups[n];
      assert Covers(caches[n], last);
      if !caches[n].readOnly { TilesFit(caches[n].data.a, last, caches[n].data.hi); }
      var all := Flat(groups);
      forall i, j | 0 <= i < j < |all| ensures all[i].own && all[j].own && all[i].a == all[j].a ==> all[i].hi <= all[j].lo {
        if i < |Flat(groups[..n])| <= j {
          assert all[i] in Flat(groups[..n]) && all[j] in last;
        }
      }
    }
  }

  class Writer {
    var caches: seq<Node>
    ghost var groups: seq<seq<Slice>>
    /** Every region handed out and every slice borrowed since the last flush, in call order. */
    ghost var regions: seq<Slice>
    /** The buffers allocated since then. */
    ghost var buffers: set<array<byte>>

    ghost predicate Valid()
      reads this
    {
      Sound(caches, groups, regions, buffers)
    }

    constructor ()
      ensures Valid() && regions == [] && buffers == {}
    {
      caches, groups, regions, buffers := [], [], [], {};
    }

    /** Hands out `length` bytes, from the last buffer when it has the room. */
    method Malloc(length: nat) returns (buf: Slice)
      requires Valid()
      modifies this
      ensures Valid() && regions == old(regions) + [buf] && Fits(buf) && buf.own && buf.hi - buf.lo == length
      ensures buffers == old(buffers) + {buf.a} && (buf.a in old(buffers) || fresh(buf.a))
    {
      hide Sound;
      var idx := |caches|;
      if idx > 0 {
        idx := idx - 1;
        LastNode(idx);
        var d := caches[idx].data;
        if !caches[idx].readOnly && d.a.Length - d.hi >= length {
          buf := Slice(d.a, d.hi, d.hi + length, true);
          ghost var n := Node(Slice(d.a, 0, d.hi + length, true), false);
          CoversMore(caches[idx], groups[idx], n, buf);
          SoundExtend(caches, groups, regions, buffers, n, buf);
          caches := caches[idx := Node(Slice(d.a, 0, d.hi + length, true), false)];
          groups := groups[idx := groups[idx] + [buf]];
          regions := regions + [buf];
          return;
        }
      }
      buf := Grow(length);
    }

    lemma LastNode(i: nat)
      requires Valid() && i < |caches|
      ensures i < |groups| == |caches| && Covers(caches[i], groups[i]) && (!caches[i].readOnly ==> caches[i].data.a in buffers)
    {
      hide Flat, Covers;
    }

    /** A new buffer; the allocator rounds its size up as it likes. */
    method Grow(length: nat) returns (buf: Slice)
      requires Valid()
      modifies this
      ensures Valid() && regions == old(regions) + [buf] && Fits(buf) && buf.own && buf.hi - buf.lo == length
      ensures buffers == old(buffers) + {buf.a} && fresh(buf.a)
    {
      hide Sound;
      var capacity: nat :| capacity >= length;
      var a := new byte[capacity](_ => 0);
      buf := Slice(a, 0, length, true);
      assert Tiles(a, [buf], length) by { assert [buf][..0] == []; }
      SoundPush(caches, groups, regions, buffers, Node(buf, false), buf);
      caches := caches + [Node(buf, false)];
      groups := groups + [[buf]];
      regions := regions + [buf];
      buffers := buffers + {a};
    }

    /** Copies a short slice into a region of its own; borrows a long one until the flush. */
    method WriteBinary(b: Slice) returns (ghost r: Slice)
      requires Valid() && Fits(b)
      modifies this, buffers
      ensures Valid() && regions == old(regions) + [r] && Fits(r) && Bytes(r) == old(Bytes(b))
      ensures r.own <==> b.hi - b.lo < SIZE_4K
      ensures !r.own ==> r == b.(own := false)
      ensures forall i :: 0 <= i < |old(regions)| && old(Kept(regions[i])) ==> Bytes(regions[i]) == old(Bytes(regions[i]))
    {
      if b.hi - b.lo < SIZE_4K {
        r := CopyIn(b.a[b.lo..b.hi]);
      } else {
        r := Borrow(b);
      }
    }

    method CopyIn(bytes: bytes) returns (buf: Slice)
      requires Valid()
      modifies this, buffers
      ensures Valid() && regions == old(regions) + [buf] && Fits(buf) && buf.own && Bytes(buf) == bytes
      ensures forall i :: 0 <= i < |old(regions)| && old(Kept(regions[i])) ==> Bytes(regions[i]) == old(Bytes(regions[i]))
    {
      hide Sound;
      buf := Malloc(|bytes|);
      RegionsApart();
      Fill(buf, bytes);
      forall i | 0 <= i < |old(regions)| && old(Kept(regions[i])) ensures Bytes(regions[i]) == old(Bytes(regions[i])) {
        assert regions[i] == old(regions[i]) && regions[|old(regions)|] == buf;
      }
    }

    lemma RegionsApart()
      requires Valid()
      ensures Apart(regions)
    {
      Disjoint(caches, groups);
    }

    method Borrow(b: Slice) returns (r: Slice)
      requires Valid() && Fits(b)
      modifies this
      ensures Valid() && regions == old(regions) + [r] && r == b.(own := false) && buffers == old(buffers)
    {
      hide Sound;
      r := b.(own := false);
      SoundPush(caches, groups, regions, buffers, Node(r, true), r);
      caches := caches + [Node(r, true)];
      groups := groups + [[r]];
      regions := regions + [r];
    }

    /** What the regions and borrowed slices hold now, in call order. */
    ghost function Output(): bytes
      requires Valid()
      reads this, set r | r in regions :: r.a
    {
      Disjoint(caches, groups);
      Concat(regions)
    }

    /**
     * Writes every node until a write fails, here after `good` of them and `sent` bytes of the next, then frees the writer's own
     * buffers, each once, and none that was borrowed.
     */
    method Flush(good: nat, sent: nat) returns (out: bytes, ok: bool, freed: seq<array<byte>>)
      requires Valid()
      modifies this
      ensures ok <==> |old(caches)| <= good
      ensures ok ==> out == old(Output())
      ensures out <= old(Output())
      ensures (forall a :: a in freed <==> a in old(buffers)) && (forall i, j :: 0 <= i < j < |freed| ==> freed[i] != freed[j])
      ensures Valid() && regions == [] && buffers == {}
    {
      out, ok := Emit(good, sent);
      freed := Release();
    }

    /** The writes of a flush. */
    method Emit(good: nat, sent: nat) returns (out: bytes, ok: bool)
      requires Valid()
      ensures ok <==> |caches| <= good
      ensures ok ==> out == old(Output())
      ensures out <= old(Output())
    {
      DataAll(caches, groups);
      hide Sound;
      out, ok := [], true;
      var i := 0;
      while i < |caches| && ok
        invariant 0 <= i <= |caches|
        invariant if ok then i <= good else i == good < |caches|
        invariant out == Data(caches, i)
        decreases |caches| - i, ok
      {
        if i < good {
          var d := caches[i].data;
          out := out + d.a[d.lo..d.hi];
          i := i + 1;
        } else {
          ok := false;
        }
      }
      if ok {
        DataGrows(caches, i, |caches|);
      } else {
        DataGrows(caches, i + 1, |caches|);
        var part := Part(caches[i].data, sent);
        PartOf(out, Bytes(caches[i].data), |part|, Data(caches, |caches|));
        out := out + part;
      }
    }

    /** What a failing write sends of a node. */
    method Part(d: Slice, sent: nat) returns (part: bytes)
      requires Fits(d)
      ensures part <= Bytes(d) && |part| == if sent > d.hi - d.lo then d.hi - d.lo else sent
    {
      var most := if sent > d.hi - d.lo then d.hi - d.lo else sent;
      part := d.a[d.lo..d.lo + most];
      assert d.a[d.lo..d.hi][..most] == part;
    }

    method Release() returns (freed: seq<array<byte>>)
      requires Valid()
      modifies this
      ensures (forall a :: a in freed <==> a in old(buffers)) && (forall i, j :: 0 <= i < j < |freed| ==> freed[i] != freed[j])
      ensures Valid() && regions == [] && buffers == {}
    {
      freed := [];
      for i := 0 to |caches|
        invariant forall a :: a in freed <==> exists k :: 0 <= k < i && !caches[k].readOnly && caches[k].data.a == a
        invariant forall k, l :: 0 <= k < l < |freed| ==> freed[k] != freed[l]
        modifies {}
      {
        if !caches[i].readOnly {
          assert caches[i].data.a !in freed;
          freed := freed + [caches[i].data.a];
        }
      }
      caches, groups, regions, buffers := [], [], [], {};
    }

    /** A region of the writer, or a slice borrowed from outside its buffers. */
    ghost predicate Kept(x: Slice)
      reads this
    {
      Fits(x) && (x.own || x.a !in buffers)
    }
  }

  method Fill(r: Slice, bytes: bytes)
    requires Fits(r) && |bytes| == r.hi - r.lo
    modifies r.a
    ensures Bytes(r) == bytes
    ensures forall i :: 0 <= i < r.a.Length && !(r.lo <= i < r.hi) ==> r.a[i] == old(r.a[i])
  {
    for i := 0 to |bytes|
      invariant r.a[r.lo..r.lo + i] == bytes[..i]
      invariant forall k :: 0 <= k < r.a.Length && !(r.lo <= k < r.hi) ==> r.a[k] == old(r.a[k])
    {
      r.a[r.lo + i] := bytes[i];
    }
  }

  lemma PartOf(out: bytes, b: bytes, n: nat, all: bytes)
    requires n <= |b| && out + b <= all
    ensures out + b[..n] <= all
  {
    assert (out + b)[..|out| + n] == out + b[..n];
  }

  /** What a node holds is what its regions hold. */
  lemma NodeBytes(n: Node, rs: seq<Slice>)
    requires Covers(n, rs)
    ensures Fits(n.data) && (forall r :: r in rs ==> Fits(r)) && Concat(rs) == Bytes(n.data)
  {
    if n.readOnly {
      assert rs[..0] == [];
    } else {
      TilesFit(n.data.a, rs, n.data.hi);
      TilesConcat(n.data.a, rs, n.data.hi);
    }
  }

  /** What the first `i` nodes hold. */
  ghost function Data(caches: seq<Node>, i: nat): bytes
    requires i <= |caches| && forall k :: 0 <= k < |caches| ==> Fits(caches[k].data)
    reads set k | 0 <= k < |caches| :: caches[k].data.a
  {
    if i == 0 then [] else Data(caches, i - 1) + Bytes(caches[i - 1].data)
  }

  lemma {:induction false} DataGrows(caches: seq<Node>, i: nat, j: nat)
    requires i <= j <= |caches| && forall k :: 0 <= k < |caches| ==> Fits(caches[k].data)
    ensures Data(caches, i) <= Data(caches, j)
    decreases j
  {
    if i < j { DataGrows(caches, i, j - 1); }
  }

  /** The nodes together hold what the regions hold in call order. */
  lemma DataAll(caches: seq<Node>, groups: seq<seq<Slice>>)
    requires Layout(caches, groups)
    ensures forall k :: 0 <= k < |caches| ==> Fits(caches[k].data)
    ensures forall r :: r in Flat(groups) ==> Fits(r)
    ensures Data(caches, |caches|) == Concat(Flat(groups))
  {
    forall k | 0 <= k < |caches| ensures Fits(caches[k].data) { NodeBytes(caches[k], groups[k]); }
    Disjoint(caches, groups);
    DataConcat(caches, groups, |caches|);
    assert groups[..|caches|] == groups;
  }

  lemma {:induction false} DataConcat(caches: seq<Node>, groups: seq<seq<Slice>>, i: nat)
    requires Layout(caches, groups) && i <= |caches| && forall k :: 0 <= k < |caches| ==> Fits(caches[k].data)
    ensures forall r :: r in Flat(groups[..i]) ==> Fits(r)
    ensures Data(caches, i) == Concat(Flat(groups[..i]))
  {
    if i > 0 {
      DataConcat(caches, groups, i - 1);
      NodeBytes(caches[i - 1], groups[i - 1]);
      FlatNext(groups, i - 1);
      hide Layout, Flat, Fits;
      ConcatAppend(Flat(groups[..i - 1]), groups[i - 1]);
    }
  }

  lemma FlatNext(groups: seq<seq<Slice>>, i: nat)
    requires i < |groups|
    ensures Flat(groups[..i + 1]) == Flat(groups[..i]) + groups[i]
  {
    assert groups[..i + 1][..i] == groups[..i];
  }

  lemma CoversMore(was: Node, rs: seq<Slice>, n: Node, r: Slice)
    requires Covers(was, rs) && !was.readOnly && !n.readOnly && n.data.own && n.data.lo == 0 && Fits(n.data) && n.data.a == was.data.a
    requires r.own && r.a == n.data.a && r.lo == was.data.hi <= r.hi == n.data.hi
    ensures Covers(n, rs + [r])
  {
    assert (rs + [r])[..|rs|] == rs;
  }

  lemma FlatLast(groups: seq<seq<Slice>>, r: Slice)
    requires groups != []
    ensures Flat(groups[|groups| - 1 := groups[|groups| - 1] + [r]]) == Flat(groups) + [r]
  {
    var n := |groups| - 1;
    var after := groups[n := groups[n] + [r]];
    assert after[..n] == groups[..n];
  }

  lemma FlatPush(groups: seq<seq<Slice>>, r: Slice)
    ensures Flat(groups + [[r]]) == Flat(groups) + [r]
  {
    assert (groups + [[r]])[..|groups|] == groups;
  }
}
