/** The router's default resource-graph adapters: a wire's notional
    location, a flat wire index built by enumerating the device's wires, and
    the split of a net into one segment per (user, sink wire). The
    architecture queries they are built on are inputs. */
module Router3Defaults {
  import opened Wrappers

  // ---------------------------------------------------------------------
  // Types of the adapter interfaces
  // ---------------------------------------------------------------------

  /** `uint32_t`. */
  type Uint32 = i: nat | i < 0x1_0000_0000

  /** `Loc`: a grid position. */
  datatype Loc = Loc(x: int, y: int, z: int)

  /** `ArcBounds`: an inclusive box `x0..x1` by `y0..y1`. */
  datatype ArcBounds = ArcBounds(x0: int, y0: int, x1: int, y1: int)

  /** `WireSegment`: a source wire, a destination wire and the logical sink
      (user index) reached, `None` standing for the "none" default. */
  datatype WireSegment<W> = WireSegment(src: W, dst: W, logicalSink: Option<nat>)

  /** The parts of `NetInfo` the segmenter reads: whether the driver port has
      a cell, and the users in order. */
  datatype NetInfo<U> = NetInfo(hasDriverCell: bool, users: seq<U>)

  /** The `Context` queries the adapters call, as given functions. */
  datatype Context<!W, !U> = Context(
    routeBoundingBox: (W, W) -> ArcBounds,
    netinfoSourceWire: NetInfo<U> -> W,
    netinfoSinkWires: (NetInfo<U>, U) -> seq<W>)

  // ---------------------------------------------------------------------
  // DefaultWireLocation
  // ---------------------------------------------------------------------

  /** C++ `n / 2` on `int`: the quotient rounded toward zero. */
  function Half(n: int): (h: int)
    ensures n >= 0 ==> 0 <= h && 2 * h <= n < 2 * h + 2
    ensures n < 0 ==> h <= 0 && 2 * h - 2 < n <= 2 * h
  {
    if n >= 0 then n / 2 else -((-n) / 2)
  }

  /** `wire_bounds(wire)`: the route bounding box of the arc from the wire to
      itself. */
  function WireBounds<W, U>(ctx: Context<W, U>, wire: W): (bb: ArcBounds)
    ensures bb == ctx.routeBoundingBox(wire, wire)
  {
    ctx.routeBoundingBox(wire, wire)
  }

  /** `approx_wire_loc(wire)`: the midpoint of the wire's own bounding box,
      each coordinate halved toward zero, on layer 0. */
  function ApproxWireLoc<W, U>(ctx: Context<W, U>, wire: W): (loc: Loc)
    ensures loc.z == 0
  {
    var bb := WireBounds(ctx, wire);
    Loc(Half(bb.x1 + bb.x0), Half(bb.y1 + bb.y0), 0)
  }

  /** The halved sum of two ordered coordinates lies between them, whatever
      their signs. */
  lemma {:induction false} HalfSumBetween(lo: int, hi: int)
    requires lo <= hi
    ensures lo <= Half(hi + lo) <= hi
  {
    var h := Half(hi + lo);
    if hi + lo >= 0 {
      assert 2 * h <= hi + lo < 2 * h + 2;
    } else {
      assert 2 * h - 2 < hi + lo <= 2 * h;
    }
  }

  /** The approximate location lies inside the wire's bounds whenever those
      bounds are a proper box, negative coordinates included. */
  lemma LocationInsideBounds<W, U>(ctx: Context<W, U>, wire: W)
    requires WireBounds(ctx, wire).x0 <= WireBounds(ctx, wire).x1
    requires WireBounds(ctx, wire).y0 <= WireBounds(ctx, wire).y1
    ensures var loc, bb := ApproxWireLoc(ctx, wire), WireBounds(ctx, wire);
      bb.x0 <= loc.x <= bb.x1 && bb.y0 <= loc.y <= bb.y1 && loc.z == 0
  {
    var bb := WireBounds(ctx, wire);
    HalfSumBetween(bb.x0, bb.x1);
    HalfSumBetween(bb.y0, bb.y1);
  }

  // ---------------------------------------------------------------------
  // DefaultFlatWireIndexer
  // ---------------------------------------------------------------------

  /** The reverse map the constructor's loop leaves after enumerating `ws`:
      each wire maps to its position, a later position overwriting an
      earlier one. */
  function LastIndexMap<W(==)>(ws: seq<W>): map<W, nat>
  {
    if ws == [] then map[]
    else LastIndexMap(ws[..|ws| - 1])[ws[|ws| - 1] := |ws| - 1]
  }

  /** No wire is enumerated twice. */
  ghost predicate Distinct<W>(ws: seq<W>) {
    forall i, j :: 0 <= i < j < |ws| ==> ws[i] != ws[j]
  }

  /** The reverse map holds exactly the enumerated wires, each at the
      position of its last occurrence. */
  lemma {:induction false} LastIndexMapSpec<W>(ws: seq<W>)
    ensures forall w :: w in LastIndexMap(ws) <==> w in ws
    ensures forall w :: w in LastIndexMap(ws) ==>
      LastIndexMap(ws)[w] < |ws| && ws[LastIndexMap(ws)[w]] == w
    ensures forall w, k :: w in LastIndexMap(ws) && LastIndexMap(ws)[w] < k < |ws| ==> ws[k] != w
  {
    if ws != [] {
      var init := ws[..|ws| - 1];
      LastIndexMapSpec(init);
      forall w | w in ws ensures w in LastIndexMap(ws) {
        var p :| 0 <= p < |ws| && ws[p] == w;
        if p < |ws| - 1 {
          assert init[p] == w;
        }
      }
    }
  }

  /** With distinct wires the reverse map inverts the enumeration. */
  lemma IndexOfDistinct<W>(ws: seq<W>, i: nat)
    requires Distinct(ws) && i < |ws|
    ensures ws[i] in LastIndexMap(ws) && LastIndexMap(ws)[ws[i]] == i
  {
    LastIndexMapSpec(ws);
    var p := LastIndexMap(ws)[ws[i]];
    assert ws[p] == ws[i];
  }

  /** A wire enumerated twice is not found at its first position. */
  lemma IndexOfDuplicate<W>(ws: seq<W>, i: nat, j: nat)
    requires i < j < |ws| && ws[i] == ws[j]
    ensures ws[i] in LastIndexMap(ws) && LastIndexMap(ws)[ws[i]] != i
  {
    LastIndexMapSpec(ws);
  }

  /** `DefaultFlatWireIndexer`: the enumeration order and its reverse map. */
  class FlatWireIndexer<W(==)> {
    /** `wire_by_index`. */
    var wireByIndex: seq<W>
    /** `wire_to_index`. */
    var wireToIndex: map<W, nat>

    /** The state the constructor establishes and nothing later changes. */
    ghost predicate Valid()
      reads this
    {
      wireToIndex == LastIndexMap(wireByIndex)
    }

    /** `DefaultFlatWireIndexer(ctx)`, given `ctx->getWires()`: one pass over
        the wires, giving each the current length of `wire_by_index` before
        appending it. */
    constructor (wires: seq<W>)
      ensures Valid()
      ensures wireByIndex == wires
    {
      wireByIndex := [];
      wireToIndex := map[];
      new;
      for i := 0 to |wires|
        invariant wireByIndex == wires[..i]
        invariant wireToIndex == LastIndexMap(wires[..i])
      {
        var wire := wires[i];
        wireToIndex := wireToIndex[wire := |wireByIndex|];
        wireByIndex := wireByIndex + [wire];
        assert wires[..i + 1][..i] == wires[..i];
      }
      assert wires[..|wires|] == wires;
    }

    /** `size()`: the number of enumerated wires, as a `uint32_t`. */
    function Size(): (n: Uint32)
      reads this
      ensures |wireByIndex| < 0x1_0000_0000 ==> n == |wireByIndex|
    {
      |wireByIndex| % 0x1_0000_0000
    }

    /** `get_index(wire)`: the wire's index, as a `uint32_t`; `out_of_range`
        for a wire that was not enumerated. */
    function GetIndex(wire: W): (r: Result<Uint32>)
      reads this
      requires Valid()
      ensures r.Ok? <==> wire in wireByIndex
      ensures r.Fail? ==> r.error == KeyNotFound
      ensures r.Ok? && |wireByIndex| <= 0x1_0000_0000 ==>
        r.value < |wireByIndex| && wireByIndex[r.value] == wire
    {
      LastIndexMapSpec(wireByIndex);
      if wire in wireToIndex then Ok(wireToIndex[wire] % 0x1_0000_0000) else Fail(KeyNotFound)
    }

    /** `get_wire(index)`: the wire at that index; `out_of_range` past the end. */
    function GetWire(index: Uint32): (r: Result<W>)
      reads this
      ensures r.Ok? <==> index < |wireByIndex|
      ensures r.Fail? ==> r.error == IndexOutOfRange
      ensures r.Ok? ==> r.value == wireByIndex[index]
    {
      if index < |wireByIndex| then Ok(wireByIndex[index]) else Fail(IndexOutOfRange)
    }
  }

  /** Every enumerated wire comes back from its own index. */
  lemma WireOfIndexOfWire<W>(ix: FlatWireIndexer<W>, wire: W)
    requires ix.Valid() && |ix.wireByIndex| <= 0x1_0000_0000
    requires wire in ix.wireByIndex
    ensures ix.GetIndex(wire).Ok? && ix.GetWire(ix.GetIndex(wire).value) == Ok(wire)
  {
  }

  /** Every index below `size()` comes back from its own wire exactly when the
      enumeration has no repeated wire. */
  lemma IndexOfWireOfIndex<W>(ix: FlatWireIndexer<W>)
    requires ix.Valid() && |ix.wireByIndex| <= 0x1_0000_0000
    ensures Distinct(ix.wireByIndex) <==>
      forall i: Uint32 :: i < |ix.wireByIndex| ==> ix.GetIndex(ix.GetWire(i).value) == Ok(i)
  {
    var ws := ix.wireByIndex;
    if Distinct(ws) {
      forall i: Uint32 | i < |ws| ensures ix.GetIndex(ix.GetWire(i).value) == Ok(i) {
        IndexOfDistinct(ws, i);
      }
    }
    if !Distinct(ws) {
      var i, j :| 0 <= i < j < |ws| && ws[i] == ws[j];
      IndexOfDuplicate(ws, i, j);
      LastIndexMapSpec(ws);
      var p := LastIndexMap(ws)[ws[i]];
      assert p < |ws| && p != i;
      assert ix.GetWire(i) == Ok(ws[i]);
      assert ix.GetIndex(ws[i]) == Ok(p);
    }
  }

  // ---------------------------------------------------------------------
  // DefaultWireSegmenter
  // ---------------------------------------------------------------------

  /** The sink wires `getNetinfoSinkWires` gives for user `usr`. */
  function SinksOf<W, U>(ctx: Context<W, U>, net: NetInfo<U>, usr: nat): seq<W>
    requires usr < |net.users|
  {
    ctx.netinfoSinkWires(net, net.users[usr])
  }

  /** The segments of one user: from the source to each of its sinks in turn. */
  function UserSegments<W>(src: W, dsts: seq<W>, usr: nat): (r: seq<WireSegment<W>>)
    ensures |r| == |dsts|
    ensures forall k :: 0 <= k < |dsts| ==> r[k] == WireSegment(src, dsts[k], Some(usr))
  {
    seq(|dsts|, k requires 0 <= k < |dsts| => WireSegment(src, dsts[k], Some(usr)))
  }

  /** The segments of users `0 .. n-1`, concatenated in user order. */
  function SegmentsUpTo<W, U>(ctx: Context<W, U>, net: NetInfo<U>, src: W, n: nat): seq<WireSegment<W>>
    requires n <= |net.users|
  {
    if n == 0 then []
    else SegmentsUpTo(ctx, net, src, n - 1) + UserSegments(src, SinksOf(ctx, net, n - 1), n - 1)
  }

  /** What `segment_net(net)` returns. */
  function NetSegments<W, U>(ctx: Context<W, U>, net: NetInfo<U>): (r: seq<WireSegment<W>>)
    ensures !net.hasDriverCell ==> r == []
    ensures net.hasDriverCell ==> |r| == SinkCount(ctx, net, |net.users|)
  {
    if !net.hasDriverCell then []
    else
      SegmentsLength(ctx, net, ctx.netinfoSourceWire(net), |net.users|);
      SegmentsUpTo(ctx, net, ctx.netinfoSourceWire(net), |net.users|)
  }

  /** The number of sink wires of users `0 .. n-1`. */
  function SinkCount<W, U>(ctx: Context<W, U>, net: NetInfo<U>, n: nat): nat
    requires n <= |net.users|
  {
    if n == 0 then 0 else SinkCount(ctx, net, n - 1) + |SinksOf(ctx, net, n - 1)|
  }

  /** `segment_net`: nothing for a net without a driver cell; otherwise, for
      each user in order, one segment from the source wire to each of the
      user's sink wires. */
  method SegmentNet<W, U>(ctx: Context<W, U>, net: NetInfo<U>) returns (result: seq<WireSegment<W>>)
    ensures result == NetSegments(ctx, net)
  {
    result := [];
    if !net.hasDriverCell {
      return;
    }
    var src := ctx.netinfoSourceWire(net);
    for usr := 0 to |net.users|
      invariant result == SegmentsUpTo(ctx, net, src, usr)
    {
      var dsts := ctx.netinfoSinkWires(net, net.users[usr]);
      ghost var before := result;
      for k := 0 to |dsts|
        invariant result == before + UserSegments(src, dsts[..k], usr)
      {
        assert UserSegments(src, dsts[..k + 1], usr) == UserSegments(src, dsts[..k], usr) + [WireSegment(src, dsts[k], Some(usr))];
        result := result + [WireSegment(src, dsts[k], Some(usr))];
      }
      assert dsts[..|dsts|] == dsts;
    }
  }

  /** A net whose driver has no cell has no segments. */
  lemma UndrivenNetHasNoSegments<W, U>(ctx: Context<W, U>, net: NetInfo<U>)
    requires !net.hasDriverCell
    ensures NetSegments(ctx, net) == []
  {
  }

  /** One segment per (user, sink wire) pair: the length is the total sink count. */
  lemma {:induction false} SegmentsLength<W, U>(ctx: Context<W, U>, net: NetInfo<U>, src: W, n: nat)
    requires n <= |net.users|
    ensures |SegmentsUpTo(ctx, net, src, n)| == SinkCount(ctx, net, n)
  {
    if n > 0 {
      SegmentsLength(ctx, net, src, n - 1);
    }
  }

  /** The `k`-th sink wire of user `u` sits at position `SinkCount(u) + k`:
      the result is the users' segment runs concatenated in user order. */
  lemma {:induction false} SegmentAt<W, U>(ctx: Context<W, U>, net: NetInfo<U>, src: W, n: nat, u: nat, k: nat)
    requires u < n <= |net.users| && k < |SinksOf(ctx, net, u)|
    ensures SinkCount(ctx, net, u) + k < |SegmentsUpTo(ctx, net, src, n)|
    ensures SegmentsUpTo(ctx, net, src, n)[SinkCount(ctx, net, u) + k] ==
      WireSegment(src, SinksOf(ctx, net, u)[k], Some(u))
  {
    SegmentsLength(ctx, net, src, n - 1);
    if u == n - 1 {
      assert SinkCount(ctx, net, n - 1) == |SegmentsUpTo(ctx, net, src, n - 1)|;
    } else {
      SegmentAt(ctx, net, src, n - 1, u, k);
    }
  }

  /** Every segment starts at the source wire, names a user below `n` as its
      logical sink, and ends at one of that user's sink wires. */
  lemma {:induction false} SegmentsWellFormed<W, U>(ctx: Context<W, U>, net: NetInfo<U>, src: W, n: nat)
    requires n <= |net.users|
    ensures forall s :: s in SegmentsUpTo(ctx, net, src, n) ==>
      s.src == src && s.logicalSink.Some? && s.logicalSink.value < n &&
      s.dst in SinksOf(ctx, net, s.logicalSink.value)
  {
    if n > 0 {
      SegmentsWellFormed(ctx, net, src, n - 1);
      var run := UserSegments(src, SinksOf(ctx, net, n - 1), n - 1);
      forall s | s in run
        ensures s.src == src && s.logicalSink == Some(n - 1) && s.dst in SinksOf(ctx, net, n - 1)
      {
        var k :| 0 <= k < |run| && run[k] == s;
      }
    }
  }

  /** Every segment names a logical sink, in non-decreasing order. */
  ghost predicate OrderedBySink<W>(r: seq<WireSegment<W>>) {
    forall i, j :: 0 <= i < j < |r| ==>
      r[i].logicalSink.Some? && r[j].logicalSink.Some? &&
      r[i].logicalSink.value <= r[j].logicalSink.value
  }

  /** Segments appear in non-decreasing order of their logical sink. */
  lemma {:induction false} SegmentsOrdered<W, U>(ctx: Context<W, U>, net: NetInfo<U>, src: W, n: nat)
    requires n <= |net.users|
    ensures OrderedBySink(SegmentsUpTo(ctx, net, src, n))
  {
    if n > 0 {
      SegmentsOrdered(ctx, net, src, n - 1);
      SegmentsWellFormed(ctx, net, src, n - 1);
      var prefix := SegmentsUpTo(ctx, net, src, n - 1);
      var run := UserSegments(src, SinksOf(ctx, net, n - 1), n - 1);
      var r := prefix + run;
      forall i, j | 0 <= i < j < |r|
        ensures r[i].logicalSink.Some? && r[j].logicalSink.Some? &&
          r[i].logicalSink.value <= r[j].logicalSink.value
      {
        if j < |prefix| {
          assert r[i] == prefix[i] && r[j] == prefix[j];
          assert prefix[i].logicalSink.value <= prefix[j].logicalSink.value;
        } else {
          assert r[j] == run[j - |prefix|];
          assert r[j].logicalSink == Some(n - 1);
          if i < |prefix| {
            assert r[i] == prefix[i];
            assert prefix[i] in prefix;
            assert prefix[i].logicalSink.value < n - 1;
          } else {
            assert r[i] == run[i - |prefix|];
          }
        }
      }
    }
  }

  /** The properties above for the whole net as `segment_net` returns it. */
  lemma {:induction false} NetSegmentsSpec<W, U>(ctx: Context<W, U>, net: NetInfo<U>)
    requires net.hasDriverCell
    ensures var r, src := NetSegments(ctx, net), ctx.netinfoSourceWire(net);
      |r| == SinkCount(ctx, net, |net.users|) &&
      OrderedBySink(r) &&
      forall s :: s in r ==>
        s.src == src && s.logicalSink.Some? && s.logicalSink.value < |net.users| &&
        s.dst in SinksOf(ctx, net, s.logicalSink.value)
  {
    var src := ctx.netinfoSourceWire(net);
    SegmentsLength(ctx, net, src, |net.users|);
    SegmentsWellFormed(ctx, net, src, |net.users|);
    SegmentsOrdered(ctx, net, src, |net.users|);
  }
}
