/** The work `Clip.clip` (gpc/gpc.js) does on the active edge table at one
    scan-beam boundary and inside one scan-beam, as the in-place passes the
    JavaScript makes: bundling, the classification scan, deletion of
    terminating edges, the handling of one edge crossing, and the
    preparation of the next beam.  Each pass is proved against the function
    of `Edges` that specifies it, and the properties proved about those
    functions are carried over to the passes.

    The AET's `prev`/`next` links are the order of the sequence `aet`;
    relinking a node becomes building the new order. */
module Sweep {
  import opened Common
  import opened Classify
  import opened Edges

  class ActiveEdgeTable {
    /** Every `EdgeNode` of both edge tables, addressed by id. */
    var edges: seq<Edge>
    /** The AET, from `aet.top_node` along `next`. */
    var aet: seq<nat>

    ghost predicate Valid()
      reads this
    {
      ValidArena(edges) && ValidAet(edges, aet)
    }

    constructor (es: seq<Edge>)
      ensures edges == es && aet == []
    {
      edges := es;
      aet := [];
    }

    /** Sets up the ABOVE bundle fields of every AET edge and bundles the
        edges that coincide above `yb` (gpc/gpc.js:186-226).  Afterwards each
        polygon's ABOVE bits over the AET have the parity of the number of
        its edges that go on above `yb`. */
    method BundleEdges(yb: real, eq: (real, real) -> bool)
      requires Valid() && |aet| > 0
      modifies this
      ensures Valid() && aet == old(aet)
      ensures edges == Bundled(old(edges), aet, yb, eq)
      ensures forall t: PolyType :: AboveParity(edges, aet, t) == LiveParity(old(edges), aet, t, yb)
    {
      var es0, ids := edges, aet;
      var es := es0;
      var first := ids[0];
      es := es[first := es[first].(bundleAbove := NoBits.Set(es[first].kind, es[first].top.y != yb),
                                    bstateAbove := Unbundled)];
      var p := 0;
      var k := 1;
      while k < |ids|
        invariant edges == es0 && aet == ids
        invariant 1 <= k <= |ids|
        invariant (es, p) == BundlePass(es0, ids, yb, eq, k)
      {
        es, p := BundleNext(es0, ids, yb, eq, es, p, k);
        k := k + 1;
      }
      BundledArena(es0, ids, yb, eq);
      BundledParity(es0, ids, yb, eq, ClipPoly);
      BundledParity(es0, ids, yb, eq, SubjPoly);
      edges := es;
    }

    /** The classification scan along the AET (gpc/gpc.js:228-360): for each
        edge that exists at the boundary it records the bundle sides (the
        parities left of it), reports its classification, and moves the
        parities and horizontal states on.  `parity` comes in from the
        previous boundary; `horiz` starts at NH for both polygons. */
    method ClassifyBoundary(op: Operation, parity0: BitPair, nextH: (HState, nat) -> HState)
      returns (parity: BitPair, classes: seq<Option<Classification>>)
      requires Valid()
      modifies this
      ensures Valid() && aet == old(aet)
      ensures (edges, classes) == ScanPass(old(edges), aet, Scan(parity0, Pair(NH, NH)), op, nextH, |aet|)
      ensures parity == ScanBefore(old(edges), aet, Scan(parity0, Pair(NH, NH)), |aet|, nextH).parity
      ensures forall k :: 0 <= k < |aet| ==>
                classes[k] == EdgeClass(op, ScanBefore(old(edges), aet, Scan(parity0, Pair(NH, NH)), k, nextH),
                                        old(edges)[aet[k]])
      ensures forall k :: 0 <= k < |aet| ==>
                edges[aet[k]].bside
                == if EdgeExists(old(edges)[aet[k]].bundleAbove, old(edges)[aet[k]].bundleBelow)
                   then ScanBefore(old(edges), aet, Scan(parity0, Pair(NH, NH)), k, nextH).parity
                   else old(edges)[aet[k]].bside
    {
      var es0, ids := edges, aet;
      var es := es0;
      ghost var s0 := Scan(parity0, Pair(NH, NH));
      parity := parity0;
      var horiz := Pair(NH, NH);
      classes := [];
      var k := 0;
      while k < |ids|
        invariant edges == es0 && aet == ids
        invariant 0 <= k <= |ids|
        invariant Scan(parity, horiz) == ScanBefore(es0, ids, s0, k, nextH)
        invariant (es, classes) == ScanPass(es0, ids, s0, op, nextH, k)
      {
        es, classes, parity, horiz := ScanNext(es0, ids, s0, op, nextH, k, es, classes, parity, horiz);
        k := k + 1;
      }
      ScanPassValid(es0, ids, s0, op, nextH);
      ScanPassClasses(es0, ids, s0, op, nextH, |ids|);
      ScanPassSides(es0, ids, s0, op, nextH, |ids|);
      edges := es;
    }

    /** One scan-beam boundary: bundling followed by the classification scan,
        which reports the classes of the bundled edges.  Each parity after
        the boundary is the one before it, toggled when an odd number of that
        polygon's AET edges go on above `yb`. */
    method Boundary(yb: real, eq: (real, real) -> bool, op: Operation, parity0: BitPair,
                    nextH: (HState, nat) -> HState)
      returns (parity: BitPair, classes: seq<Option<Classification>>)
      requires Valid() && |aet| > 0
      modifies this
      ensures Valid() && aet == old(aet) && |classes| == |aet|
      ensures (edges, classes)
              == ScanPass(Bundled(old(edges), aet, yb, eq), aet, Scan(parity0, Pair(NH, NH)), op, nextH, |aet|)
      ensures forall k :: 0 <= k < |aet| ==>
                classes[k] == EdgeClass(op, ScanBefore(Bundled(old(edges), aet, yb, eq), aet,
                                                       Scan(parity0, Pair(NH, NH)), k, nextH),
                                        Bundled(old(edges), aet, yb, eq)[aet[k]])
      ensures forall t: PolyType :: parity.Get(t) == (parity0.Get(t) != LiveParity(old(edges), aet, t, yb))
    {
      ghost var es0 := edges;
      BundleEdges(yb, eq);
      parity, classes := ClassifyBoundary(op, parity0, nextH);
      BoundaryParity(es0, aet, yb, eq, Scan(parity0, Pair(NH, NH)), nextH, ClipPoly);
      BoundaryParity(es0, aet, yb, eq, Scan(parity0, Pair(NH, NH)), nextH, SubjPoly);
    }

    /** Removes the edges that end at `yb` from the AET, handing a removed
        bundle head's output contour to the bundle tail before it, and sets
        `xt` of every other edge to its x at `yt` (gpc/gpc.js:458-490). */
    method DeleteTerminating(yb: real, yt: real)
      requires Valid()
      modifies this
      ensures (edges, aet) == DeletePass(old(edges), [], old(aet), yb, yt)
      ensures Valid()
      ensures aet == LiveIds(old(edges), old(aet), yb)
      ensures forall k :: 0 <= k < |old(aet)| && Live(old(edges)[old(aet)[k]], yb) ==>
                edges[old(aet)[k]].xt == XtAt(old(edges)[old(aet)[k]], yt)
    {
      var es0, rest := edges, aet;
      var es := es0;
      var kept: seq<nat> := [];
      var k := 0;
      while k < |rest|
        invariant edges == es0 && aet == rest
        invariant 0 <= k <= |rest| && |es| == |es0| && InArena(es, kept)
        invariant DeletePass(es, kept, rest[k..], yb, yt) == DeletePass(es0, [], rest, yb, yt)
      {
        es, kept := DeleteNext(es, kept, rest[k..], yb, yt);
        assert rest[k..][1..] == rest[k + 1..];
        k := k + 1;
      }
      assert rest[|rest|..] == [];
      DeleteResult(es0, [], rest, yb, yt);
      DeleteSetsXt(es0, [], rest, yb, yt);
      LiveIdsDistinct(es0, rest, yb);
      assert [] + LiveIds(es0, rest, yb) == LiveIds(es0, rest, yb);
      assert forall i :: 0 <= i < |es| ==> es[i].succ == es0[i].succ;
      edges, aet := es, kept;
    }

    /** One crossing of the edges at AET positions `i` and `j`
        (gpc/gpc.js:507-734): when both edges carry an ABOVE bit it reports
        the quadrant occupancy of the crossing; it flips each edge's bundle
        sides by the other's ABOVE bits, so that sides that held the parity
        left of each edge still do in the new order; and it moves the bundle
        ending in the first edge past the bundle ending in the second. */
    method Cross(op: Operation, i: nat, j: nat) returns (q: Option<Quadrants>)
      requires Valid() && i < j < |aet|
      requires edges[aet[i]].bstateAbove == BundleHead ==> i > 0
      modifies this
      ensures Valid()
      ensures aet == SwapBlocks(old(aet), BlockStart(old(edges), old(aet), i), i, j)
      ensures var e0 := old(edges)[old(aet)[i]]; var e1 := old(edges)[old(aet)[j]];
        && (q.Some? <==> e0.bundleAbove != NoBits && e1.bundleAbove != NoBits)
        && (q.Some? ==> q.value == CrossClass(op, e0.bundleAbove, e0.bside, e1.bundleAbove, e1.bside))
        && edges == old(edges)[old(aet)[i] := e0.(bside := CrossedSides(e0.bundleAbove, e0.bside, e1.bundleAbove, e1.bside).0)]
                              [old(aet)[j] := e1.(bside := CrossedSides(e0.bundleAbove, e0.bside, e1.bundleAbove, e1.bside).1)]
      ensures var e0 := old(edges)[old(aet)[i]]; var e1 := old(edges)[old(aet)[j]];
        e1.bside == Toggle(e0.bside, e0.bundleAbove) ==>
          edges[old(aet)[j]].bside == e0.bside && edges[old(aet)[i]].bside == Toggle(e0.bside, e1.bundleAbove)
    {
      var es0, ids := edges, aet;
      var n0 := ids[i];
      var n1 := ids[j];
      var e0 := es0[n0];
      var e1 := es0[n1];
      q := None;
      if (e0.bundleAbove.clip || e0.bundleAbove.subj) && (e1.bundleAbove.clip || e1.bundleAbove.subj) {
        q := Some(CrossClass(op, e0.bundleAbove, e0.bside, e1.bundleAbove, e1.bside));
      }
      var sides := CrossedSides(e0.bundleAbove, e0.bside, e1.bundleAbove, e1.bside);
      CrossingKeepsSideParity(e0.bside, e0.bundleAbove, e1.bundleAbove);
      var es := es0[n0 := e0.(bside := sides.0)][n1 := e1.(bside := sides.1)];

      var start := FindBlockStart(es0, ids, i);
      var order := SwapBlocks(ids, start, i, j);
      SwapBlocksPermutes(ids, start, i, j);
      ArenaPerm(es0, ids, order);
      assert forall x :: 0 <= x < |es| ==> es[x].succ == es0[x].succ;
      edges, aet := es, order;
    }

    /** Prepares the AET for the next scan-beam (gpc/gpc.js:740-769): an edge
        that ends at `yt` and has a successor is replaced in place by it,
        which takes over its ABOVE values as BELOW values; any other edge
        rolls its own ABOVE values into BELOW and moves `xb` to `xt`; the
        old edge's `outp[ABOVE]` is cleared. */
    method PrepareNextBeam(yt: real)
      requires Valid()
      modifies this
      ensures (edges, aet) == PreparePass(old(edges), [], old(aet), yt)
      ensures aet == Targets(old(edges), old(aet), yt) && ValidArena(edges) && InArena(edges, aet)
      ensures PrepareSafe(old(edges), old(aet), yt) ==>
                Valid() && forall k :: 0 <= k < |aet| ==> RolledAt(old(edges), edges, old(aet)[k], yt)
    {
      var es0, rest := edges, aet;
      var es := es0;
      var built: seq<nat> := [];
      var k := 0;
      while k < |rest|
        invariant edges == es0 && aet == rest
        invariant 0 <= k <= |rest| && |es| == |es0| && ValidArena(es) && InArena(es, rest)
        invariant PreparePass(es, built, rest[k..], yt) == PreparePass(es0, [], rest, yt)
      {
        es, built := PrepareNext(es, built, rest[k..], yt);
        assert rest[k..][1..] == rest[k + 1..];
        k := k + 1;
      }
      assert rest[|rest|..] == [];
      PrepareDone(es0, (es, built), rest, yt);
      edges, aet := es, built;
    }
  }

  /** One turn of the bundling loop: sets up the ABOVE fields of the edge at
      AET position `k` and bundles it with `e0` (at position `p`) when they
      coincide. */
  method BundleNext(ghost es0: seq<Edge>, ids: seq<nat>, yb: real, eq: (real, real) -> bool,
                    es: seq<Edge>, p: nat, k: nat)
    returns (es': seq<Edge>, p': nat)
    requires ValidAet(es0, ids) && 1 <= k < |ids|
    requires (es, p) == BundlePass(es0, ids, yb, eq, k)
    ensures (es', p') == BundlePass(es0, ids, yb, eq, k + 1)
  {
    es' := es;
    p' := p;
    var n := ids[k];
    var ne := es'[n];
    var t := ne.kind;
    ne := ne.(bundleAbove := NoBits.Set(t, ne.top.y != yb), bstateAbove := Unbundled);
    es' := es'[n := ne];
    if ne.bundleAbove.Get(t) {
      var e0 := es'[ids[p]];
      if eq(e0.xb, ne.xb) && eq(e0.dx, ne.dx) && e0.top.y != yb {
        var above := ne.bundleAbove.Set(t, ne.bundleAbove.Get(t) != e0.bundleAbove.Get(t))
                                   .Set(t.Opposite(), e0.bundleAbove.Get(t.Opposite()));
        es' := es'[n := ne.(bundleAbove := above, bstateAbove := BundleHead)];
        es' := es'[ids[p] := e0.(bundleAbove := NoBits, bstateAbove := BundleTail)];
      }
      p' := k;
    }
  }
  /** One turn of the classification loop, for the edge at AET position
      `k`. */
  method ScanNext(es0: seq<Edge>, ids: seq<nat>, ghost s0: Scan, op: Operation,
                  nextH: (HState, nat) -> HState, k: nat,
                  es: seq<Edge>, classes: seq<Option<Classification>>, parity: BitPair, horiz: HPair)
    returns (es': seq<Edge>, classes': seq<Option<Classification>>, parity': BitPair, horiz': HPair)
    requires InArena(es0, ids) && k < |ids|
    requires Scan(parity, horiz) == ScanBefore(es0, ids, s0, k, nextH)
    requires (es, classes) == ScanPass(es0, ids, s0, op, nextH, k)
    ensures Scan(parity', horiz') == ScanBefore(es0, ids, s0, k + 1, nextH)
    ensures (es', classes') == ScanPass(es0, ids, s0, op, nextH, k + 1)
  {
    es', parity', horiz' := es, parity, horiz;
    var id := ids[k];
    var edge := es0[id];
    var cf: Option<Classification> := None;
    if EdgeExists(edge.bundleAbove, edge.bundleBelow) {
      es' := es'[id := es'[id].(bside := parity')];
      cf := Some(BoundaryClass(op, parity', horiz', edge.bundleAbove, edge.bundleBelow));
      parity' := Toggle(parity', edge.bundleAbove);
      horiz' := MoveHoriz(horiz', ClipPoly, edge, parity', nextH);
      horiz' := MoveHoriz(horiz', SubjPoly, edge, parity', nextH);
    }
    classes' := classes + [cf];
  }
  /** One turn of the deletion loop, for the first edge of `rest`: an edge
      that ends at `yb` is dropped (handing a bundle head's output contour
      to the tail before it); any other edge is kept and gets its `xt`. */
  method DeleteNext(es: seq<Edge>, kept: seq<nat>, rest: seq<nat>, yb: real, yt: real)
    returns (es': seq<Edge>, kept': seq<nat>)
    requires InArena(es, kept) && InArena(es, rest) && |rest| > 0
    ensures |es'| == |es| && InArena(es', kept')
    ensures DeletePass(es', kept', rest[1..], yb, yt) == DeletePass(es, kept, rest, yb, yt)
  {
    es', kept' := es, kept;
    var id := rest[0];
    assert rest != [];
    if es'[id].top.y == yb {
      if es'[id].bstateBelow == BundleHead && |kept'| > 0 {
        var pe := kept'[|kept'| - 1];
        if es'[pe].bstateBelow == BundleTail {
          var st := Unbundled;
          if |kept'| > 1 && es'[kept'[|kept'| - 2]].bstateBelow == BundleTail {
            st := BundleHead;
          }
          es' := es'[pe := es'[pe].(outpBelow := es'[id].outpBelow, bstateBelow := st)];
        }
      }
      assert es' == HandOff(es, kept, id);
    } else {
      var edge := es'[id];
      var xt := if edge.top.y == yt then edge.top.x else edge.bot.x + edge.dx * (yt - edge.bot.y);
      assert xt == XtAt(es[id], yt);
      es' := es'[id := edge.(xt := xt)];
      kept' := kept' + [id];
    }
  }
  /** The walk from `e0.prev` back over bundle tails when `e0` (at AET
      position `i`) heads a bundle: the position after `prev_edge`, where
      the block that moves with `e0` starts. */
  method FindBlockStart(es: seq<Edge>, ids: seq<nat>, i: nat) returns (start: nat)
    requires InArena(es, ids) && i < |ids|
    requires es[ids[i]].bstateAbove == BundleHead ==> i > 0
    ensures start == BlockStart(es, ids, i)
  {
    var prev := i - 1;
    if es[ids[i]].bstateAbove == BundleHead {
      var search := true;
      while search
        invariant -1 <= prev <= i - 1
        invariant search ==> prev >= 0 && WalkBack(es, ids, i - 2) == WalkBack(es, ids, prev - 1)
        invariant !search ==> prev == WalkBack(es, ids, i - 2)
        decreases prev + 1, search
      {
        prev := prev - 1;
        if prev >= 0 {
          if es[ids[prev]].bstateAbove != BundleTail {
            search := false;
          }
        } else {
          search := false;
        }
      }
    }
    start := prev + 1;
  }
  /** One turn of the preparation loop, for the first edge of `rest`. */
  method PrepareNext(es: seq<Edge>, built: seq<nat>, rest: seq<nat>, yt: real)
    returns (es': seq<Edge>, built': seq<nat>)
    requires ValidArena(es) && InArena(es, rest) && |rest| > 0
    ensures |es'| == |es| && ValidArena(es') && InArena(es', rest)
    ensures PreparePass(es', built', rest[1..], yt) == PreparePass(es, built, rest, yt)
  {
    var id := rest[0];
    var edge := es[id];
    es' := es;
    if edge.top.y == yt && edge.succ.Some? {
      var s := edge.succ.value;
      es' := es'[s := es'[s].(outpBelow := edge.outpAbove, bstateBelow := edge.bstateAbove,
                              bundleBelow := edge.bundleAbove)];
      built' := built + [s];
    } else {
      es' := es'[id := edge.(outpBelow := edge.outpAbove, bstateBelow := edge.bstateAbove,
                             bundleBelow := edge.bundleAbove, xb := edge.xt)];
      built' := built + [id];
    }
    es' := es'[id := es'[id].(outpAbove := None)];
    assert es' == PrepareStep(es, id, yt);
  }
}
