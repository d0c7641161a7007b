/** The edge records of the active edge table (AET) of `Clip.clip`
    (gpc/gpc.js) and the passes the sweep makes over them at each scan-beam
    boundary, as functions of the records and of the AET order.

    Every `EdgeNode` of both polygons' edge tables is a record in one arena
    `es: seq<Edge>`, addressed by its index; the AET, a doubly linked list
    from `aet.top_node` along `next`, is the sequence of the ids of its edges
    in list order, and an edge's `succ` reference is an optional id.  Output
    contours referenced from `outp[ABOVE]`/`outp[BELOW]` are opaque ids. */
module Edges {
  import opened Common
  import opened Classify

  /** `BundleState`: UNBUNDLED, BUNDLE_HEAD, BUNDLE_TAIL. */
  datatype BundleState = Unbundled | BundleHead | BundleTail

  /** One `EdgeNode`: its end points, its x at the bottom and top of the
      current beam, its inverse slope, which polygon it comes from, the
      ABOVE/BELOW bundle bits and states, its bundle sides, its output
      contours above and below, and its successor in its bound. */
  datatype Edge = Edge(
    bot: Point, top: Point,
    xb: real, xt: real, dx: real,
    kind: PolyType,
    bundleAbove: BitPair, bundleBelow: BitPair,
    bstateAbove: BundleState, bstateBelow: BundleState,
    bside: BitPair,
    outpAbove: Option<nat>, outpBelow: Option<nat>,
    succ: Option<nat>)

  /** Every id of `ids` addresses a record of `es`. */
  predicate InArena(es: seq<Edge>, ids: seq<nat>) {
    forall k :: 0 <= k < |ids| ==> ids[k] < |es|
  }

  /** No id occurs twice in `ids`. */
  predicate Distinct(ids: seq<nat>) {
    forall k, m :: 0 <= k < m < |ids| ==> ids[k] != ids[m]
  }

  /** A well-formed AET over the arena. */
  predicate ValidAet(es: seq<Edge>, aet: seq<nat>) {
    InArena(es, aet) && Distinct(aet)
  }

  /** Every successor reference addresses a record. */
  predicate ValidArena(es: seq<Edge>) {
    forall i :: 0 <= i < |es| && es[i].succ.Some? ==> es[i].succ.value < |es|
  }

  // ---------------------------------------------------------------------
  // Bundling (gpc/gpc.js:186-226)
  // ---------------------------------------------------------------------

  /** The edge continues above the boundary `yb`. */
  predicate Live(e: Edge, yb: real) {
    e.top.y != yb
  }

  /** ABOVE set-up of one edge: its own polygon's bit is 1 iff it continues
      above `yb`, the other bit is 0, and it is unbundled. */
  function FreshAbove(e: Edge, yb: real): Edge {
    e.(bundleAbove := NoBits.Set(e.kind, Live(e, yb)), bstateAbove := Unbundled)
  }

  /** `e0` and the next live edge coincide above the boundary (`Clip.EQ` on
      their bottom x and slope, passed in as `eq`), and `e0` itself goes on
      above `yb`. */
  predicate Coincide(e0: Edge, ne: Edge, yb: real, eq: (real, real) -> bool) {
    eq(e0.xb, ne.xb) && eq(e0.dx, ne.dx) && Live(e0, yb)
  }

  /** Bundling of `ne` (id `n`) with `e0` (id `p`): `ne` takes the xor of
      both edges' bits for its own polygon and `e0`'s bit for the other one,
      and becomes the head; `e0` drops its bits and becomes a tail. */
  function JoinBundle(es: seq<Edge>, p: nat, n: nat): seq<Edge>
    requires p < |es| && n < |es| && p != n
  {
    var e0 := es[p];
    var ne := es[n];
    var t := ne.kind;
    var above := ne.bundleAbove.Set(t, ne.bundleAbove.Get(t) != e0.bundleAbove.Get(t))
                               .Set(t.Opposite(), e0.bundleAbove.Get(t.Opposite()));
    es[n := ne.(bundleAbove := above, bstateAbove := BundleHead)]
      [p := e0.(bundleAbove := NoBits, bstateAbove := BundleTail)]
  }

  /** The bundling pass over the first `k` AET edges: the records it leaves
      and the AET position of the current `e0`. */
  function BundlePass(es: seq<Edge>, aet: seq<nat>, yb: real, eq: (real, real) -> bool, k: nat)
    : (r: (seq<Edge>, nat))
    requires ValidAet(es, aet) && 1 <= k <= |aet|
    ensures |r.0| == |es| && r.1 < k
    ensures forall m :: k <= m < |aet| ==> r.0[aet[m]] == es[aet[m]]
    ensures forall q :: r.1 < q < k ==> !Live(es[aet[q]], yb)
    ensures r.0[aet[r.1]].bstateAbove != BundleTail
    decreases k
  {
    if k == 1 then
      (es[aet[0] := FreshAbove(es[aet[0]], yb)], 0)
    else
      var prev := BundlePass(es, aet, yb, eq, k - 1);
      var p := prev.1;
      var n := aet[k - 1];
      var es1 := prev.0[n := FreshAbove(prev.0[n], yb)];
      if !Live(es1[n], yb) then (es1, p)
      else if Coincide(es1[aet[p]], es1[n], yb, eq) then (JoinBundle(es1, aet[p], n), k - 1)
      else (es1, k - 1)
  }

  /** The bundling pass changes the ABOVE bundle bits and states of the
      first `k` AET edges and nothing else. */
  lemma BundleFrame(es: seq<Edge>, aet: seq<nat>, yb: real, eq: (real, real) -> bool, k: nat)
    requires ValidAet(es, aet) && 1 <= k <= |aet|
    ensures var r := BundlePass(es, aet, yb, eq, k).0;
      && (forall i :: 0 <= i < |es| ==>
            r[i] == es[i].(bundleAbove := r[i].bundleAbove, bstateAbove := r[i].bstateAbove))
      && (forall i :: 0 <= i < |es| && i !in aet[..k] ==> r[i] == es[i])
  {
    BundleFrameFields(es, aet, yb, eq, k);
    BundleFrameOutside(es, aet, yb, eq, k);
  }

  /** `b` differs from `a` in ABOVE bundle bits and states at most. */
  predicate AboveOnly(a: seq<Edge>, b: seq<Edge>) {
    |b| == |a| &&
    forall i :: 0 <= i < |a| ==> b[i] == a[i].(bundleAbove := b[i].bundleAbove, bstateAbove := b[i].bstateAbove)
  }

  lemma AboveOnlyTrans(a: seq<Edge>, b: seq<Edge>, c: seq<Edge>)
    requires AboveOnly(a, b) && AboveOnly(b, c)
    ensures AboveOnly(a, c)
  {
  }

  lemma {:induction false} BundleFrameFields(es: seq<Edge>, aet: seq<nat>, yb: real,
                                             eq: (real, real) -> bool, k: nat)
    requires ValidAet(es, aet) && 1 <= k <= |aet|
    ensures AboveOnly(es, BundlePass(es, aet, yb, eq, k).0)
    decreases k
  {
    if k > 1 {
      var prev := BundlePass(es, aet, yb, eq, k - 1);
      var n := aet[k - 1];
      var es1 := prev.0[n := FreshAbove(prev.0[n], yb)];
      BundleFrameFields(es, aet, yb, eq, k - 1);
      assert AboveOnly(prev.0, es1);
      var r := BundlePass(es, aet, yb, eq, k).0;
      if r != es1 {
        assert AboveOnly(es1, r);
        AboveOnlyTrans(prev.0, es1, r);
      }
      AboveOnlyTrans(es, prev.0, r);
    }
  }

  lemma {:induction false} BundleFrameOutside(es: seq<Edge>, aet: seq<nat>, yb: real,
                                              eq: (real, real) -> bool, k: nat)
    requires ValidAet(es, aet) && 1 <= k <= |aet|
    ensures var r := BundlePass(es, aet, yb, eq, k).0;
      forall i :: 0 <= i < |es| && i !in aet[..k] ==> r[i] == es[i]
    decreases k
  {
    if k > 1 {
      var prev := BundlePass(es, aet, yb, eq, k - 1);
      var r := BundlePass(es, aet, yb, eq, k).0;
      BundleFrameOutside(es, aet, yb, eq, k - 1);
      assert forall i :: 0 <= i < |es| && i != aet[k - 1] && i != aet[prev.1] ==> r[i] == prev.0[i];
      OutsideStep(es, prev.0, r, aet, k, prev.1);
    }
  }

  /** One step of `BundleFrameOutside`: a step that changes only the edges
      at AET positions `k - 1` and `p` keeps every edge outside `aet[..k]`. */
  lemma OutsideStep(es: seq<Edge>, prev: seq<Edge>, r: seq<Edge>, aet: seq<nat>, k: nat, p: nat)
    requires |prev| == |es| && |r| == |es| && 1 < k <= |aet| && p < k - 1
    requires forall i :: 0 <= i < |es| && i !in aet[..k - 1] ==> prev[i] == es[i]
    requires forall i :: 0 <= i < |es| && i != aet[k - 1] && i != aet[p] ==> r[i] == prev[i]
    ensures forall i :: 0 <= i < |es| && i !in aet[..k] ==> r[i] == es[i]
  {
    assert aet[k - 1] in aet[..k] && aet[p] in aet[..k];
    assert forall i :: i in aet[..k - 1] ==> i in aet[..k];
  }

  /** The records after the whole bundling pass. */
  function Bundled(es: seq<Edge>, aet: seq<nat>, yb: real, eq: (real, real) -> bool): seq<Edge>
    requires ValidAet(es, aet) && |aet| > 0
  {
    BundlePass(es, aet, yb, eq, |aet|).0
  }

  /** Bundling leaves every successor reference, and so a valid arena,
      as it was. */
  lemma BundledArena(es: seq<Edge>, aet: seq<nat>, yb: real, eq: (real, real) -> bool)
    requires ValidArena(es) && ValidAet(es, aet) && |aet| > 0
    ensures ValidArena(Bundled(es, aet, yb, eq)) && ValidAet(Bundled(es, aet, yb, eq), aet)
  {
    var r := Bundled(es, aet, yb, eq);
    BundleFrame(es, aet, yb, eq, |aet|);
    assert forall i :: 0 <= i < |es| ==> r[i].succ == es[i].succ;
  }

  /** The ABOVE bits the bundling pass leaves on the AET edge at position
      `j`: an edge ending at `yb` has none and stays unbundled; an unbundled
      edge going on above `yb` has exactly its own polygon's bit; a bundle
      tail has none. */
  predicate FlagsAt(r: seq<Edge>, es: seq<Edge>, aet: seq<nat>, yb: real, j: nat)
    requires ValidAet(es, aet) && |r| == |es| && j < |aet|
  {
    var e := r[aet[j]];
    && (!Live(es[aet[j]], yb) ==> e.bundleAbove == NoBits && e.bstateAbove == Unbundled)
    && (Live(es[aet[j]], yb) && e.bstateAbove == Unbundled ==> e.bundleAbove == NoBits.Set(e.kind, true))
    && (e.bstateAbove == BundleTail ==> e.bundleAbove == NoBits)
  }

  /** The first `k` AET edges carry the ABOVE bits `FlagsAt` describes. */
  lemma {:induction false} BundleFlags(es: seq<Edge>, aet: seq<nat>, yb: real,
                                       eq: (real, real) -> bool, k: nat)
    requires ValidAet(es, aet) && 1 <= k <= |aet|
    ensures forall j :: 0 <= j < k ==> FlagsAt(BundlePass(es, aet, yb, eq, k).0, es, aet, yb, j)
    decreases k
  {
    if k > 1 {
      BundleFlags(es, aet, yb, eq, k - 1);
      BundleFrame(es, aet, yb, eq, k - 1);
      var prev := BundlePass(es, aet, yb, eq, k - 1);
      var p := prev.1;
      var n := aet[k - 1];
      assert prev.0[n] == es[n];
      var es1 := prev.0[n := FreshAbove(es[n], yb)];
      var r := BundlePass(es, aet, yb, eq, k).0;
      var merged := Live(es1[n], yb) && Coincide(es1[aet[p]], es1[n], yb, eq);
      assert forall q :: 0 <= q < k - 1 && (!merged || q != p) ==> r[aet[q]] == prev.0[aet[q]];
      assert FlagsAt(r, es, aet, yb, k - 1);
      FlagsStep(es, aet, yb, prev.0, r, p, k, merged);
    }
  }

  /** One step of `BundleFlags`, over the records before and after the
      `k`-th edge is bundled. */
  lemma FlagsStep(es: seq<Edge>, aet: seq<nat>, yb: real, prev: seq<Edge>, r: seq<Edge>,
                  p: nat, k: nat, merged: bool)
    requires ValidAet(es, aet) && 2 <= k <= |aet| && |prev| == |es| && |r| == |es| && p < k - 1
    requires forall q :: 0 <= q < k - 1 && (!merged || q != p) ==> r[aet[q]] == prev[aet[q]]
    requires merged ==> Live(es[aet[p]], yb) && r[aet[p]].bundleAbove == NoBits
                        && r[aet[p]].bstateAbove == BundleTail
    requires forall j :: 0 <= j < k - 1 ==> FlagsAt(prev, es, aet, yb, j)
    requires FlagsAt(r, es, aet, yb, k - 1)
    ensures forall j :: 0 <= j < k ==> FlagsAt(r, es, aet, yb, j)
  {
    forall j | 0 <= j < k
      ensures FlagsAt(r, es, aet, yb, j)
    {
      if j < k - 1 && (!merged || j != p) {
        assert FlagsAt(prev, es, aet, yb, j);
      }
    }
  }

  /** Position `m` closes the bundle of the tail at position `j`: a head,
      with only tails and edges ending at `yb` in between. */
  predicate HeadAfter(r: seq<Edge>, es: seq<Edge>, aet: seq<nat>, yb: real, j: nat, m: nat)
    requires ValidAet(es, aet) && |r| == |es| && j < m < |aet|
  {
    && r[aet[m]].bstateAbove == BundleHead
    && forall q :: j < q < m ==> r[aet[q]].bstateAbove == BundleTail || !Live(es[aet[q]], yb)
  }

  /** Every bundle tail among the first `k` AET edges is followed, past
      tails and terminating edges only, by the head of its bundle. */
  lemma {:induction false} TailsReachHead(es: seq<Edge>, aet: seq<nat>, yb: real,
                                          eq: (real, real) -> bool, k: nat)
    requires ValidAet(es, aet) && 1 <= k <= |aet|
    ensures var r := BundlePass(es, aet, yb, eq, k).0;
      forall j :: 0 <= j < k && r[aet[j]].bstateAbove == BundleTail ==>
        exists m :: j < m < k && HeadAfter(r, es, aet, yb, j, m)
    decreases k
  {
    if k > 1 {
      TailsReachHead(es, aet, yb, eq, k - 1);
      var prev := BundlePass(es, aet, yb, eq, k - 1);
      var p := prev.1;
      var n := aet[k - 1];
      assert prev.0[n] == es[n];
      var es1 := prev.0[n := FreshAbove(es[n], yb)];
      var r := BundlePass(es, aet, yb, eq, k).0;
      var merged := Live(es1[n], yb) && Coincide(es1[aet[p]], es1[n], yb, eq);
      assert forall q :: 0 <= q < k - 1 && (!merged || q != p) ==> r[aet[q]] == prev.0[aet[q]];
      TailsStep(es, aet, yb, prev.0, r, p, k, merged);
    }
  }

  /** One step of `TailsReachHead`, stated over the records before (`prev`)
      and after (`r`) the `k`-th edge is bundled; `merged` says whether it
      joined the bundle of the edge at position `p`. */
  lemma TailsStep(es: seq<Edge>, aet: seq<nat>, yb: real, prev: seq<Edge>, r: seq<Edge>,
                  p: nat, k: nat, merged: bool)
    requires ValidAet(es, aet) && 2 <= k <= |aet| && |prev| == |es| && |r| == |es| && p < k - 1
    requires forall q :: 0 <= q < k - 1 && (!merged || q != p) ==> r[aet[q]] == prev[aet[q]]
    requires forall q :: p < q < k - 1 ==> !Live(es[aet[q]], yb)
    requires merged ==> r[aet[p]].bstateAbove == BundleTail && r[aet[k - 1]].bstateAbove == BundleHead
    requires !merged ==> r[aet[k - 1]].bstateAbove != BundleTail
    requires forall j :: 0 <= j < k - 1 && prev[aet[j]].bstateAbove == BundleTail ==>
               exists m :: j < m < k - 1 && HeadAfter(prev, es, aet, yb, j, m)
    ensures forall j :: 0 <= j < k && r[aet[j]].bstateAbove == BundleTail ==>
              exists m :: j < m < k && HeadAfter(r, es, aet, yb, j, m)
  {
    forall j | 0 <= j < k && r[aet[j]].bstateAbove == BundleTail
      ensures exists m :: j < m < k && HeadAfter(r, es, aet, yb, j, m)
    {
      if merged && j == p {
        assert HeadAfter(r, es, aet, yb, j, k - 1);
      } else {
        assert j < k - 1;
        var m :| j < m < k - 1 && HeadAfter(prev, es, aet, yb, j, m);
        if merged && m == p {
          assert HeadAfter(r, es, aet, yb, j, k - 1);
        } else {
          assert HeadAfter(r, es, aet, yb, j, m);
        }
      }
    }
  }

  // ---------------------------------------------------------------------
  // Parities of ABOVE bundle bits
  // ---------------------------------------------------------------------

  /** Xor of the ABOVE bundle bits of polygon `t` over the edges `ids`. */
  function AboveParity(es: seq<Edge>, ids: seq<nat>, t: PolyType): bool
    requires InArena(es, ids)
  {
    if ids == [] then false
    else AboveParity(es, ids[..|ids| - 1], t) != es[ids[|ids| - 1]].bundleAbove.Get(t)
  }

  /** Parity of the number of edges of polygon `t` among `ids` that go on
      above `yb`. */
  function LiveParity(es: seq<Edge>, ids: seq<nat>, t: PolyType, yb: real): bool
    requires InArena(es, ids)
  {
    if ids == [] then false
    else
      var e := es[ids[|ids| - 1]];
      LiveParity(es, ids[..|ids| - 1], t, yb) != (e.kind == t && Live(e, yb))
  }

  /** Changing the ABOVE bit of polygon `t` at one position `m` of `ids`
      toggles `AboveParity` by the change. */
  lemma {:induction false} AboveParityChange(es: seq<Edge>, es': seq<Edge>, ids: seq<nat>,
                                             t: PolyType, m: int)
    requires InArena(es, ids) && InArena(es', ids)
    requires forall k :: 0 <= k < |ids| && k != m ==>
               es'[ids[k]].bundleAbove.Get(t) == es[ids[k]].bundleAbove.Get(t)
    ensures 0 <= m < |ids| ==>
              AboveParity(es', ids, t)
              == (AboveParity(es, ids, t) != (es[ids[m]].bundleAbove.Get(t) != es'[ids[m]].bundleAbove.Get(t)))
    ensures !(0 <= m < |ids|) ==> AboveParity(es', ids, t) == AboveParity(es, ids, t)
  {
    if ids != [] {
      AboveParityChange(es, es', ids[..|ids| - 1], t, m);
    }
  }

  lemma FreshBit(e: Edge, yb: real, t: PolyType)
    ensures FreshAbove(e, yb).bundleAbove.Get(t) == (e.kind == t && Live(e, yb))
  {
    if t != e.kind {
      assert t == e.kind.Opposite();
    }
  }

  lemma JoinBits(es: seq<Edge>, p: nat, n: nat, t: PolyType)
    requires p < |es| && n < |es| && p != n
    ensures JoinBundle(es, p, n)[p].bundleAbove == NoBits
    ensures JoinBundle(es, p, n)[n].bundleAbove.Get(t)
            == if t == es[n].kind then es[n].bundleAbove.Get(t) != es[p].bundleAbove.Get(t)
               else es[p].bundleAbove.Get(t)
  {
    if t != es[n].kind {
      assert t == es[n].kind.Opposite();
    }
  }

  /** The bundling pass keeps, for each polygon, the parity of the ABOVE bits
      over the AET equal to the parity of the number of that polygon's edges
      that go on above `yb`: bundling moves bits, it never loses one. */
  lemma {:induction false} BundleParity(es: seq<Edge>, aet: seq<nat>, yb: real,
                                        eq: (real, real) -> bool, k: nat, t: PolyType)
    requires ValidAet(es, aet) && 1 <= k <= |aet|
    ensures AboveParity(BundlePass(es, aet, yb, eq, k).0, aet[..k], t) == LiveParity(es, aet[..k], t, yb)
    decreases k
  {
    if k == 1 {
      var n := aet[0];
      assert aet[..1] == [n] && [n][..0] == [];
      FreshBit(es[n], yb, t);
    } else {
      BundleParity(es, aet, yb, eq, k - 1, t);
      BundleParityStep(es, aet, yb, eq, k, t);
    }
  }

  lemma BundleParityStep(es: seq<Edge>, aet: seq<nat>, yb: real,
                         eq: (real, real) -> bool, k: nat, t: PolyType)
    requires ValidAet(es, aet) && 2 <= k <= |aet|
    requires AboveParity(BundlePass(es, aet, yb, eq, k - 1).0, aet[..k - 1], t)
             == LiveParity(es, aet[..k - 1], t, yb)
    ensures AboveParity(BundlePass(es, aet, yb, eq, k).0, aet[..k], t) == LiveParity(es, aet[..k], t, yb)
  {
    var r := BundlePass(es, aet, yb, eq, k).0;
    var prev := BundlePass(es, aet, yb, eq, k - 1);
    var p := prev.1;
    var n := aet[k - 1];
    var before := aet[..k - 1];
    assert aet[..k] == before + [n];
    assert before[p] == aet[p];
    assert prev.0[n] == es[n];
    var es1 := prev.0[n := FreshAbove(es[n], yb)];
    var merged := Live(es1[n], yb) && Coincide(es1[aet[p]], es1[n], yb, eq);
    assert r == if merged then JoinBundle(es1, aet[p], n) else es1;
    ParityStepOf(es, before, n, prev.0, es1, r, p, aet[p], merged, yb, t);
  }

  /** One step of `BundleParity`, over the records before (`prev`) and after
      (`r`) the edge `n` is bundled. */
  lemma ParityStepOf(es: seq<Edge>, before: seq<nat>, n: nat, prev: seq<Edge>, es1: seq<Edge>,
                     r: seq<Edge>, p: nat, x: nat, merged: bool, yb: real, t: PolyType)
    requires InArena(es, before) && n < |es| && |prev| == |es| && Distinct(before + [n])
    requires es1 == prev[n := FreshAbove(es[n], yb)]
    requires AboveParity(prev, before, t) == LiveParity(es, before, t, yb)
    requires merged ==> p < |before| && before[p] == x && x < |es| && x != n && Live(es[n], yb)
                        && r == JoinBundle(es1, x, n)
    requires !merged ==> r == es1
    ensures AboveParity(r, before + [n], t) == LiveParity(es, before + [n], t, yb)
  {
    var ids := before + [n];
    assert ids[..|ids| - 1] == before;
    var own := es[n].kind == t && Live(es[n], yb);
    assert LiveParity(es, ids, t, yb) == (LiveParity(es, before, t, yb) != own);
    FreshBit(es[n], yb, t);
    assert n !in before by {
      forall q | 0 <= q < |before| ensures before[q] != n {
        assert ids[q] == before[q] && ids[|before|] == n;
      }
    }
    AboveParityChange(prev, es1, before, t, -1);
    if merged {
      FreshBit(es[n], yb, es[n].kind);
      JoinStep(es1, before, x, p, n, t);
    } else {
      assert AboveParity(r, ids, t) == (AboveParity(es1, before, t) != es1[n].bundleAbove.Get(t));
    }
  }

  lemma JoinStep(es1: seq<Edge>, before: seq<nat>, x: nat, p: nat, n: nat, t: PolyType)
    requires InArena(es1, before) && Distinct(before + [n]) && n < |es1|
    requires p < |before| && before[p] == x && x != n
    requires es1[n].bundleAbove.Get(es1[n].kind)
    ensures var r := JoinBundle(es1, x, n);
      AboveParity(r, before + [n], t)
      == (AboveParity(es1, before, t) != (t == es1[n].kind))
  {
    var r := JoinBundle(es1, x, n);
    var ids := before + [n];
    assert ids[..|ids| - 1] == before;
    JoinBits(es1, x, n, t);
    assert forall q :: 0 <= q < |before| && q != p ==> before[q] != x && before[q] != n by {
      forall q | 0 <= q < |before| && q != p
        ensures before[q] != x && before[q] != n
      {
        assert ids[q] == before[q] && ids[p] == x && ids[|before|] == n;
      }
    }
    AboveParityChange(es1, r, before, t, p);
  }

  /** After the whole pass, the ABOVE parity of each polygon over the AET is
      the parity of the number of its edges that go on above `yb`. */
  lemma BundledParity(es: seq<Edge>, aet: seq<nat>, yb: real, eq: (real, real) -> bool, t: PolyType)
    requires ValidAet(es, aet) && |aet| > 0
    ensures AboveParity(Bundled(es, aet, yb, eq), aet, t) == LiveParity(es, aet, t, yb)
  {
    BundleParity(es, aet, yb, eq, |aet|, t);
    assert aet[..|aet|] == aet;
  }

  // ---------------------------------------------------------------------
  // Boundary classification scan (gpc/gpc.js:228-360)
  // ---------------------------------------------------------------------

  /** The running values of the scan along the AET: the two parities and
      the two horizontal states left of the current edge. */
  datatype Scan = Scan(parity: BitPair, horiz: HPair)

  /** `horiz[t]` after an edge whose `exists[t]` code is `code`, looked up in
      the transition table `nextH` (`HState.next_h_state`) at
      `((code - 1) << 1) + parity`, the parity already updated. */
  function NextHoriz(h: HState, above: bool, below: bool, parity: bool,
                     nextH: (HState, nat) -> HState): HState
  {
    var code := ExistsCode(above, below);
    if code != 0 then nextH(h, 2 * (code - 1) + (if parity then 1 else 0)) else h
  }

  /** The scan after passing edge `e`: an edge that exists at the boundary
      toggles each parity by its ABOVE bit and moves each horizontal state;
      any other edge changes nothing. */
  /** `horiz` after edge `e` for polygon type `t` (gpc/gpc.js:348-360): only
      the entry of `t` moves. */
  function MoveHoriz(h: HPair, t: PolyType, e: Edge, parity: BitPair,
                     nextH: (HState, nat) -> HState): HPair
  {
    h.Set(t, NextHoriz(h.Get(t), e.bundleAbove.Get(t), e.bundleBelow.Get(t), parity.Get(t), nextH))
  }

  function ScanStep(s: Scan, e: Edge, nextH: (HState, nat) -> HState): Scan {
    if EdgeExists(e.bundleAbove, e.bundleBelow) then
      var parity := Toggle(s.parity, e.bundleAbove);
      Scan(parity, MoveHoriz(MoveHoriz(s.horiz, ClipPoly, e, parity, nextH), SubjPoly, e, parity, nextH))
    else s
  }

  /** The scan left of AET position `k`. */
  function ScanBefore(es: seq<Edge>, aet: seq<nat>, s0: Scan, k: nat,
                      nextH: (HState, nat) -> HState): Scan
    requires InArena(es, aet) && k <= |aet|
  {
    if k == 0 then s0 else ScanStep(ScanBefore(es, aet, s0, k - 1, nextH), es[aet[k - 1]], nextH)
  }

  /** What the boundary scan reports for an edge: nothing for an edge that
      does not exist at the boundary, else its classification. */
  function EdgeClass(op: Operation, s: Scan, e: Edge): Option<Classification> {
    if EdgeExists(e.bundleAbove, e.bundleBelow)
    then Some(BoundaryClass(op, s.parity, s.horiz, e.bundleAbove, e.bundleBelow))
    else None
  }

  /** The classification scan over the first `k` AET edges: the records,
      with the bundle sides of every edge that exists at the boundary set
      to the parities left of it, and what the scan reports for each edge. */
  function ScanPass(es: seq<Edge>, aet: seq<nat>, s0: Scan, op: Operation,
                    nextH: (HState, nat) -> HState, k: nat)
    : (r: (seq<Edge>, seq<Option<Classification>>))
    requires InArena(es, aet) && k <= |aet|
    ensures |r.0| == |es| && |r.1| == k
  {
    if k == 0 then (es, [])
    else
      var prev := ScanPass(es, aet, s0, op, nextH, k - 1);
      var s := ScanBefore(es, aet, s0, k - 1, nextH);
      var id := aet[k - 1];
      var e := es[id];
      (if EdgeExists(e.bundleAbove, e.bundleBelow) then prev.0[id := prev.0[id].(bside := s.parity)] else prev.0,
       prev.1 + [EdgeClass(op, s, e)])
  }

  /** The scan changes only bundle sides. */
  lemma {:induction false} ScanPassFrame(es: seq<Edge>, aet: seq<nat>, s0: Scan, op: Operation,
                                         nextH: (HState, nat) -> HState, k: nat)
    requires InArena(es, aet) && k <= |aet|
    ensures var r := ScanPass(es, aet, s0, op, nextH, k).0;
      forall i :: 0 <= i < |es| ==> r[i] == es[i].(bside := r[i].bside)
  {
    if k > 0 {
      ScanPassFrame(es, aet, s0, op, nextH, k - 1);
    }
  }

  /** The scan changes only bundle sides, so the arena stays well formed. */
  lemma ScanPassValid(es: seq<Edge>, aet: seq<nat>, s0: Scan, op: Operation,
                      nextH: (HState, nat) -> HState)
    requires ValidArena(es) && ValidAet(es, aet)
    ensures var r := ScanPass(es, aet, s0, op, nextH, |aet|).0;
      ValidArena(r) && ValidAet(r, aet)
  {
    ScanPassFrame(es, aet, s0, op, nextH, |aet|);
    var r := ScanPass(es, aet, s0, op, nextH, |aet|).0;
    assert forall i :: 0 <= i < |es| ==> r[i].succ == es[i].succ;
  }

  /** The scan reports for each edge its classification from the scan
      values left of it. */
  lemma {:induction false} ScanPassClasses(es: seq<Edge>, aet: seq<nat>, s0: Scan, op: Operation,
                                           nextH: (HState, nat) -> HState, k: nat)
    requires InArena(es, aet) && k <= |aet|
    ensures var r := ScanPass(es, aet, s0, op, nextH, k).1;
      forall m :: 0 <= m < k ==> r[m] == EdgeClass(op, ScanBefore(es, aet, s0, m, nextH), es[aet[m]])
  {
    if k > 0 {
      ScanPassClasses(es, aet, s0, op, nextH, k - 1);
      var prev := ScanPass(es, aet, s0, op, nextH, k - 1).1;
      assert ScanPass(es, aet, s0, op, nextH, k).1
             == prev + [EdgeClass(op, ScanBefore(es, aet, s0, k - 1, nextH), es[aet[k - 1]])];
      ClassesStep(es, aet, s0, op, nextH, k, prev, ScanPass(es, aet, s0, op, nextH, k).1);
    }
  }

  /** One step of `ScanPassClasses`: appending the class of the edge at
      position `k - 1` to the classes of the edges before it. */
  lemma ClassesStep(es: seq<Edge>, aet: seq<nat>, s0: Scan, op: Operation, nextH: (HState, nat) -> HState,
                    k: nat, prev: seq<Option<Classification>>, r: seq<Option<Classification>>)
    requires InArena(es, aet) && 0 < k <= |aet| && |prev| == k - 1
    requires forall m :: 0 <= m < k - 1 ==> prev[m] == EdgeClass(op, ScanBefore(es, aet, s0, m, nextH), es[aet[m]])
    requires r == prev + [EdgeClass(op, ScanBefore(es, aet, s0, k - 1, nextH), es[aet[k - 1]])]
    ensures forall m :: 0 <= m < k ==> r[m] == EdgeClass(op, ScanBefore(es, aet, s0, m, nextH), es[aet[m]])
  {
  }

  /** The scan sets the bundle sides of exactly the edges that exist at the
      boundary, each to the parities left of it. */
  lemma {:induction false} ScanPassSides(es: seq<Edge>, aet: seq<nat>, s0: Scan, op: Operation,
                                         nextH: (HState, nat) -> HState, k: nat)
    requires ValidAet(es, aet) && k <= |aet|
    ensures var r := ScanPass(es, aet, s0, op, nextH, k).0;
      forall m :: 0 <= m < |aet| ==>
        r[aet[m]].bside
        == if m < k && EdgeExists(es[aet[m]].bundleAbove, es[aet[m]].bundleBelow)
           then ScanBefore(es, aet, s0, m, nextH).parity
           else es[aet[m]].bside
  {
    if k > 0 {
      ScanPassSides(es, aet, s0, op, nextH, k - 1);
      var r := ScanPass(es, aet, s0, op, nextH, k).0;
      var prev := ScanPass(es, aet, s0, op, nextH, k - 1).0;
      forall m | 0 <= m < |aet| && m != k - 1
        ensures r[aet[m]] == prev[aet[m]]
      {
        assert aet[m] != aet[k - 1];
      }
    }
  }

  /** Left of AET position `k`, each parity is its starting value toggled by
      every ABOVE bit of that polygon before `k`. */
  lemma {:induction false} ScanParity(es: seq<Edge>, aet: seq<nat>, s0: Scan, k: nat,
                                      nextH: (HState, nat) -> HState, t: PolyType)
    requires InArena(es, aet) && k <= |aet|
    ensures ScanBefore(es, aet, s0, k, nextH).parity.Get(t)
            == (s0.parity.Get(t) != AboveParity(es, aet[..k], t))
  {
    if k > 0 {
      ScanParity(es, aet, s0, k - 1, nextH, t);
      assert aet[..k][..k - 1] == aet[..k - 1];
    } else {
      assert aet[..k] == [];
    }
  }

  /** Across a whole boundary, after bundling, each parity changes exactly
      when an odd number of that polygon's edges go on above `yb`; so with
      an even number it comes back to its starting value. */
  lemma BoundaryParity(es: seq<Edge>, aet: seq<nat>, yb: real, eq: (real, real) -> bool,
                       s0: Scan, nextH: (HState, nat) -> HState, t: PolyType)
    requires ValidAet(es, aet) && |aet| > 0
    ensures ScanBefore(Bundled(es, aet, yb, eq), aet, s0, |aet|, nextH).parity.Get(t)
            == (s0.parity.Get(t) != LiveParity(es, aet, t, yb))
  {
    BundledParity(es, aet, yb, eq, t);
    ScanParity(Bundled(es, aet, yb, eq), aet, s0, |aet|, nextH, t);
    assert aet[..|aet|] == aet;
  }

  // ---------------------------------------------------------------------
  // Deleting terminating edges (gpc/gpc.js:458-490)
  // ---------------------------------------------------------------------

  /** `xt` of an edge that goes on: its top x if it ends at `yt`, otherwise
      its x at `yt` on the line through its bottom with inverse slope `dx`. */
  function XtAt(e: Edge, yt: real): real {
    if e.top.y == yt then e.top.x else e.bot.x + e.dx * (yt - e.bot.y)
  }

  /** `e` heads a BELOW bundle and the last edge kept so far is a BELOW
      tail of it. */
  predicate HandsOff(es: seq<Edge>, kept: seq<nat>, e: nat)
    requires InArena(es, kept) && e < |es|
  {
    |kept| > 0 && es[e].bstateBelow == BundleHead && es[kept[|kept| - 1]].bstateBelow == BundleTail
  }

  /** The BELOW state of the tail that takes over: head of what is left of
      the bundle when another tail precedes it, unbundled otherwise. */
  function TailAfterHandOff(es: seq<Edge>, kept: seq<nat>): (st: BundleState)
    requires InArena(es, kept) && |kept| > 0
    ensures st != BundleTail
  {
    if |kept| > 1 && es[kept[|kept| - 2]].bstateBelow == BundleTail then BundleHead else Unbundled
  }

  /** Removing the terminating edge `e` when the edges kept so far are
      `kept`: if `e` heads a BELOW bundle and the kept edge before it is a
      BELOW tail, that tail takes over `e`'s output contour and becomes the
      head of what is left of the bundle, or unbundled if no tail precedes
      it. */
  function HandOff(es: seq<Edge>, kept: seq<nat>, e: nat): (r: seq<Edge>)
    requires InArena(es, kept) && e < |es|
    ensures |r| == |es|
    ensures forall i :: 0 <= i < |es| && (|kept| == 0 || i != kept[|kept| - 1]) ==> r[i] == es[i]
    ensures r != es <==> HandsOff(es, kept, e)
    ensures HandsOff(es, kept, e) ==>
              var pe := kept[|kept| - 1];
              r[pe] == es[pe].(outpBelow := es[e].outpBelow, bstateBelow := TailAfterHandOff(es, kept))
  {
    if HandsOff(es, kept, e) then
      var pe := kept[|kept| - 1];
      es[pe := es[pe].(outpBelow := es[e].outpBelow, bstateBelow := TailAfterHandOff(es, kept))]
    else es
  }

  /** The deletion pass over the AET edges `rest` once the edges `kept`
      have been kept: the records and the new AET. */
  function DeletePass(es: seq<Edge>, kept: seq<nat>, rest: seq<nat>, yb: real, yt: real)
    : (r: (seq<Edge>, seq<nat>))
    requires InArena(es, kept) && InArena(es, rest)
    ensures |r.0| == |es|
    decreases |rest|
  {
    if rest == [] then (es, kept)
    else
      var e := rest[0];
      if es[e].top.y == yb then DeletePass(HandOff(es, kept, e), kept, rest[1..], yb, yt)
      else DeletePass(es[e := es[e].(xt := XtAt(es[e], yt))], kept + [e], rest[1..], yb, yt)
  }

  /** The edges of `ids` that go on above `yb`, in order. */
  function LiveIds(es: seq<Edge>, ids: seq<nat>, yb: real): (r: seq<nat>)
    requires InArena(es, ids)
    ensures InArena(es, r)
  {
    if ids == [] then []
    else (if Live(es[ids[0]], yb) then [ids[0]] else []) + LiveIds(es, ids[1..], yb)
  }

  /** The edges kept are edges of `ids`, so a sequence without repeats
      keeps none twice. */
  lemma {:induction false} LiveIdsDistinct(es: seq<Edge>, ids: seq<nat>, yb: real)
    requires InArena(es, ids) && Distinct(ids)
    ensures Distinct(LiveIds(es, ids, yb))
    ensures forall x :: x in LiveIds(es, ids, yb) ==> x in ids
  {
    if ids != [] {
      var tail := ids[1..];
      assert Distinct(tail);
      LiveIdsDistinct(es, tail, yb);
      assert ids[0] !in tail by {
        forall b | 0 <= b < |tail| ensures tail[b] != ids[0] {
          assert ids[b + 1] == tail[b];
        }
      }
      var r := LiveIds(es, ids, yb);
      var head := if Live(es[ids[0]], yb) then [ids[0]] else [];
      var rt := LiveIds(es, tail, yb);
      assert r == head + rt;
      forall k, m | 0 <= k < m < |r| ensures r[k] != r[m] {
        if |head| == 1 && k == 0 {
          assert r[m] == rt[m - 1];
          assert rt[m - 1] in rt;
        } else {
          assert r[k] == rt[k - |head|] && r[m] == rt[m - |head|];
        }
      }
    }
  }

  lemma {:induction false} LiveIdsFrame(es: seq<Edge>, es': seq<Edge>, ids: seq<nat>, yb: real)
    requires InArena(es, ids) && InArena(es', ids)
    requires forall k :: 0 <= k < |ids| ==> es'[ids[k]].top == es[ids[k]].top
    ensures LiveIds(es', ids, yb) == LiveIds(es, ids, yb)
  {
    if ids != [] {
      LiveIdsFrame(es, es', ids[1..], yb);
    }
  }

  /** Deletion keeps the AET order and removes exactly the edges that end
      at `yb`; it changes only `xt`, `outp[BELOW]` and `bstate[BELOW]`. */
  lemma DeleteResult(es: seq<Edge>, kept: seq<nat>, rest: seq<nat>, yb: real, yt: real)
    requires InArena(es, kept) && InArena(es, rest)
    ensures var r := DeletePass(es, kept, rest, yb, yt);
      && r.1 == kept + LiveIds(es, rest, yb)
      && (forall i :: 0 <= i < |es| ==>
            r.0[i] == es[i].(xt := r.0[i].xt, outpBelow := r.0[i].outpBelow, bstateBelow := r.0[i].bstateBelow))
  {
    DeleteOrder(es, kept, rest, yb, yt);
    DeleteFrame(es, kept, rest, yb, yt);
  }

  lemma {:induction false} DeleteOrder(es: seq<Edge>, kept: seq<nat>, rest: seq<nat>, yb: real, yt: real)
    requires InArena(es, kept) && InArena(es, rest)
    ensures DeletePass(es, kept, rest, yb, yt).1 == kept + LiveIds(es, rest, yb)
    decreases |rest|
  {
    if rest == [] {
      assert kept + [] == kept;
    } else if es[rest[0]].top.y == yb {
      var es' := HandOff(es, kept, rest[0]);
      DeleteOrder(es', kept, rest[1..], yb, yt);
      DeleteOrderRemoved(es, es', kept, rest, yb, yt);
    } else {
      var e := rest[0];
      var es' := es[e := es[e].(xt := XtAt(es[e], yt))];
      DeleteOrder(es', kept + [e], rest[1..], yb, yt);
      DeleteOrderKept(es, es', kept, rest, yb, yt);
    }
  }

  /** A terminating edge leaves the order of the rest as it was. */
  lemma DeleteOrderRemoved(es: seq<Edge>, es': seq<Edge>, kept: seq<nat>, rest: seq<nat>, yb: real, yt: real)
    requires InArena(es, kept) && InArena(es, rest) && rest != [] && es[rest[0]].top.y == yb
    requires es' == HandOff(es, kept, rest[0])
    requires DeletePass(es', kept, rest[1..], yb, yt).1 == kept + LiveIds(es', rest[1..], yb)
    ensures DeletePass(es, kept, rest, yb, yt).1 == kept + LiveIds(es, rest, yb)
  {
    var tail := rest[1..];
    assert DeletePass(es, kept, rest, yb, yt) == DeletePass(es', kept, tail, yb, yt);
    LiveIdsFrame(es, es', tail, yb);
    assert LiveIds(es, rest, yb) == [] + LiveIds(es, tail, yb);
    assert [] + LiveIds(es, tail, yb) == LiveIds(es, tail, yb);
  }

  /** An edge that goes on is kept after the edges kept so far. */
  lemma DeleteOrderKept(es: seq<Edge>, es': seq<Edge>, kept: seq<nat>, rest: seq<nat>, yb: real, yt: real)
    requires InArena(es, kept) && InArena(es, rest) && rest != [] && es[rest[0]].top.y != yb
    requires es' == es[rest[0] := es[rest[0]].(xt := XtAt(es[rest[0]], yt))]
    requires InArena(es', kept + [rest[0]])
    requires DeletePass(es', kept + [rest[0]], rest[1..], yb, yt).1 == kept + [rest[0]] + LiveIds(es', rest[1..], yb)
    ensures DeletePass(es, kept, rest, yb, yt).1 == kept + LiveIds(es, rest, yb)
  {
    assert LiveIds(es, rest, yb) == [rest[0]] + LiveIds(es', rest[1..], yb) by {
      LiveIdsFrame(es, es', rest[1..], yb);
    }
    ConcatAssoc(kept, [rest[0]], LiveIds(es', rest[1..], yb));
  }

  /** A removed bundle head hands its output contour to the kept BELOW tail
      right before it, and no later step of the pass changes that tail. */
  lemma DeleteHandsOff(es: seq<Edge>, kept: seq<nat>, rest: seq<nat>, yb: real, yt: real)
    requires InArena(es, kept) && InArena(es, rest) && |rest| > 0 && kept != [] && kept[|kept| - 1] !in rest
    requires es[rest[0]].top.y == yb && HandsOff(es, kept, rest[0])
    ensures var pe := kept[|kept| - 1];
      DeletePass(es, kept, rest, yb, yt).0[pe]
      == es[pe].(outpBelow := es[rest[0]].outpBelow, bstateBelow := TailAfterHandOff(es, kept))
  {
    var pe := kept[|kept| - 1];
    var es' := HandOff(es, kept, rest[0]);
    assert pe !in rest[1..] by {
      forall y | y in rest[1..] ensures y in rest { }
    }
    DeleteKeepsSettled(es', kept, rest[1..], yb, yt, pe);
  }

  /** A kept edge is not changed again by the rest of the pass, unless it is
      the last kept edge and a BELOW tail, which a removed head may still
      hand its contour to. */
  lemma {:induction false} DeleteKeepsSettled(es: seq<Edge>, kept: seq<nat>, rest: seq<nat>,
                                              yb: real, yt: real, x: nat)
    requires InArena(es, kept) && InArena(es, rest) && x in kept && x !in rest
    requires x == kept[|kept| - 1] ==> es[x].bstateBelow != BundleTail
    ensures DeletePass(es, kept, rest, yb, yt).0[x] == es[x]
    decreases |rest|
  {
    if rest != [] {
      var e := rest[0];
      assert x !in rest[1..] by {
        forall y | y in rest[1..] ensures y in rest { }
      }
      if es[e].top.y == yb {
        var es' := HandOff(es, kept, e);
        assert es'[x] == es[x];
        DeleteKeepsSettled(es', kept, rest[1..], yb, yt, x);
      } else {
        var es' := es[e := es[e].(xt := XtAt(es[e], yt))];
        assert x in kept + [e];
        DeleteKeepsSettled(es', kept + [e], rest[1..], yb, yt, x);
      }
    }
  }

  lemma ConcatAssoc<T>(a: seq<T>, b: seq<T>, c: seq<T>)
    ensures a + b + c == a + (b + c)
  {
  }

  lemma {:induction false} DeleteFrame(es: seq<Edge>, kept: seq<nat>, rest: seq<nat>, yb: real, yt: real)
    requires InArena(es, kept) && InArena(es, rest)
    ensures var r := DeletePass(es, kept, rest, yb, yt);
      forall i :: 0 <= i < |es| ==>
        r.0[i] == es[i].(xt := r.0[i].xt, outpBelow := r.0[i].outpBelow, bstateBelow := r.0[i].bstateBelow)
    decreases |rest|
  {
    if rest != [] {
      var e := rest[0];
      if es[e].top.y == yb {
        DeleteFrame(HandOff(es, kept, e), kept, rest[1..], yb, yt);
      } else {
        DeleteFrame(es[e := es[e].(xt := XtAt(es[e], yt))], kept + [e], rest[1..], yb, yt);
      }
    }
  }

  lemma {:induction false} DeleteKeepsXt(es: seq<Edge>, kept: seq<nat>, rest: seq<nat>, yb: real, yt: real)
    requires InArena(es, kept) && InArena(es, rest)
    ensures var r := DeletePass(es, kept, rest, yb, yt);
      forall i :: 0 <= i < |es| && i !in rest ==> r.0[i].xt == es[i].xt
    decreases |rest|
  {
    if rest != [] {
      var e := rest[0];
      if es[e].top.y == yb {
        DeleteKeepsXt(HandOff(es, kept, e), kept, rest[1..], yb, yt);
      } else {
        DeleteKeepsXt(es[e := es[e].(xt := XtAt(es[e], yt))], kept + [e], rest[1..], yb, yt);
      }
    }
  }

  /** Every edge that deletion keeps gets the `xt` of its line at `yt`. */
  lemma {:induction false} DeleteSetsXt(es: seq<Edge>, kept: seq<nat>, rest: seq<nat>, yb: real, yt: real)
    requires InArena(es, kept) && InArena(es, rest) && Distinct(rest)
    ensures var r := DeletePass(es, kept, rest, yb, yt);
      forall k :: 0 <= k < |rest| && Live(es[rest[k]], yb) ==> r.0[rest[k]].xt == XtAt(es[rest[k]], yt)
    decreases |rest|, 1
  {
    if rest != [] {
      var e := rest[0];
      var tail := rest[1..];
      assert Distinct(tail);
      assert e !in tail by {
        forall k | 0 <= k < |tail| ensures tail[k] != e {
          assert rest[k + 1] == tail[k];
        }
      }
      if es[e].top.y == yb {
        DeleteSetsXtRemoved(es, kept, rest, yb, yt);
      } else {
        DeleteSetsXtKept(es, kept, rest, yb, yt);
      }
    }
  }

  lemma {:induction false} DeleteSetsXtRemoved(es: seq<Edge>, kept: seq<nat>, rest: seq<nat>, yb: real, yt: real)
    requires InArena(es, kept) && InArena(es, rest) && Distinct(rest) && |rest| > 0
    requires es[rest[0]].top.y == yb && Distinct(rest[1..])
    ensures var r := DeletePass(es, kept, rest, yb, yt);
      forall k :: 0 <= k < |rest| && Live(es[rest[k]], yb) ==> r.0[rest[k]].xt == XtAt(es[rest[k]], yt)
    decreases |rest|, 0
  {
    var es' := HandOff(es, kept, rest[0]);
    DeleteSetsXt(es', kept, rest[1..], yb, yt);
    DeleteSetsXtStep(es, es', kept, rest, yb, yt);
  }

  lemma {:induction false} DeleteSetsXtKept(es: seq<Edge>, kept: seq<nat>, rest: seq<nat>, yb: real, yt: real)
    requires InArena(es, kept) && InArena(es, rest) && Distinct(rest) && |rest| > 0
    requires es[rest[0]].top.y != yb && Distinct(rest[1..]) && rest[0] !in rest[1..]
    ensures var r := DeletePass(es, kept, rest, yb, yt);
      forall k :: 0 <= k < |rest| && Live(es[rest[k]], yb) ==> r.0[rest[k]].xt == XtAt(es[rest[k]], yt)
    decreases |rest|, 0
  {
    var e := rest[0];
    var es' := es[e := es[e].(xt := XtAt(es[e], yt))];
    DeleteSetsXt(es', kept + [e], rest[1..], yb, yt);
    DeleteKeepsXt(es', kept + [e], rest[1..], yb, yt);
    DeleteSetsXtStep(es, es', kept + [e], rest, yb, yt);
  }

  lemma DeleteSetsXtStep(es: seq<Edge>, es': seq<Edge>, kept': seq<nat>, rest: seq<nat>, yb: real, yt: real)
    requires InArena(es, rest) && InArena(es', kept') && InArena(es', rest) && |rest| > 0 && |es'| == |es|
    requires forall x :: 0 <= x < |es| ==> XtAt(es'[x], yt) == XtAt(es[x], yt) && es'[x].top == es[x].top
    requires var r := DeletePass(es', kept', rest[1..], yb, yt);
      forall k :: 0 <= k < |rest[1..]| && Live(es'[rest[1..][k]], yb) ==> r.0[rest[1..][k]].xt == XtAt(es'[rest[1..][k]], yt)
    requires Live(es[rest[0]], yb) ==> DeletePass(es', kept', rest[1..], yb, yt).0[rest[0]].xt == XtAt(es[rest[0]], yt)
    ensures var r := DeletePass(es', kept', rest[1..], yb, yt);
      forall k :: 0 <= k < |rest| && Live(es[rest[k]], yb) ==> r.0[rest[k]].xt == XtAt(es[rest[k]], yt)
  {
    var r := DeletePass(es', kept', rest[1..], yb, yt);
    forall k | 0 <= k < |rest| && Live(es[rest[k]], yb)
      ensures r.0[rest[k]].xt == XtAt(es[rest[k]], yt)
    {
      if k > 0 {
        assert rest[k] == rest[1..][k - 1];
      }
    }
  }

  // ---------------------------------------------------------------------
  // Swapping the bundles of two crossing edges (gpc/gpc.js:703-734)
  // ---------------------------------------------------------------------

  /** The walk from `e0.prev` towards the top of the AET while the edges are
      bundle tails: the position `q` is examined first; the answer is the
      first position at or before `q` that is not a tail, or -1 (null). */
  function WalkBack(es: seq<Edge>, aet: seq<nat>, q: int): (r: int)
    requires InArena(es, aet) && -1 <= q < |aet|
    ensures -1 <= r <= q
    ensures forall x :: r < x <= q ==> es[aet[x]].bstateAbove == BundleTail
    ensures r >= 0 ==> es[aet[r]].bstateAbove != BundleTail
    decreases q + 1
  {
    if q < 0 then -1
    else if es[aet[q]].bstateAbove != BundleTail then q
    else WalkBack(es, aet, q - 1)
  }

  /** The AET position where the block that moves with `e0` (at position
      `i`) starts: `e0` alone, or, when `e0` heads a bundle, `e0` with the
      edge before it and every bundle tail directly before that. */
  function BlockStart(es: seq<Edge>, aet: seq<nat>, i: nat): (p: nat)
    requires InArena(es, aet) && i < |aet|
    requires es[aet[i]].bstateAbove == BundleHead ==> i > 0
    ensures p <= i
    ensures es[aet[i]].bstateAbove != BundleHead ==> p == i
    ensures es[aet[i]].bstateAbove == BundleHead ==>
              p < i && (forall x :: p <= x < i - 1 ==> es[aet[x]].bstateAbove == BundleTail)
              && (p > 0 ==> es[aet[p - 1]].bstateAbove != BundleTail)
  {
    if es[aet[i]].bstateAbove == BundleHead then WalkBack(es, aet, i - 2) + 1 else i
  }

  /** The AET after the swap: the block `s[p..i+1]` ending in `e0` and the
      block `s[i+1..j+1]` ending in `e1` change places. */
  function SwapBlocks(s: seq<nat>, p: nat, i: nat, j: nat): (r: seq<nat>)
    requires p <= i < j < |s|
    ensures |r| == |s|
  {
    s[..p] + s[i + 1..j + 1] + s[p..i + 1] + s[j + 1..]
  }

  /** The swap is a permutation that leaves everything before the first
      block and after the second in place, puts `e0` where `e1` was and `e1`
      at the end of its moved block, and keeps the ids distinct. */
  lemma SwapBlocksPermutes(s: seq<nat>, p: nat, i: nat, j: nat)
    requires p <= i < j < |s|
    ensures var r := SwapBlocks(s, p, i, j);
      && multiset(r) == multiset(s)
      && r[..p] == s[..p] && r[j + 1..] == s[j + 1..]
      && r[j] == s[i] && r[p + (j - i) - 1] == s[j]
      && (Distinct(s) ==> Distinct(r))
  {
    SwapBlocksPlaces(s, p, i, j);
    SwapBlocksMultiset(s, p, i, j);
    DistinctByMultiset(s, SwapBlocks(s, p, i, j));
  }

  lemma SwapBlocksPlaces(s: seq<nat>, p: nat, i: nat, j: nat)
    requires p <= i < j < |s|
    ensures var r := SwapBlocks(s, p, i, j);
      && r[..p] == s[..p] && r[j + 1..] == s[j + 1..]
      && r[j] == s[i] && r[p + (j - i) - 1] == s[j]
  {
    var a, b, c, d := s[..p], s[p..i + 1], s[i + 1..j + 1], s[j + 1..];
    assert |a| == p && |c| == j - i && |b| == i + 1 - p;
    assert b[|b| - 1] == s[i] && c[|c| - 1] == s[j];
    SwappedBlocks(a, b, c, d);
  }

  lemma SwapBlocksMultiset(s: seq<nat>, p: nat, i: nat, j: nat)
    requires p <= i < j < |s|
    ensures multiset(SwapBlocks(s, p, i, j)) == multiset(s)
  {
    var a, b, c, d := s[..p], s[p..i + 1], s[i + 1..j + 1], s[j + 1..];
    SplitFour(s, p, i, j);
    SwappedMultiset(a, b, c, d);
  }

  lemma SplitFour(s: seq<nat>, p: nat, i: nat, j: nat)
    requires p <= i < j < |s|
    ensures s == s[..p] + s[p..i + 1] + s[i + 1..j + 1] + s[j + 1..]
  {
  }

  lemma SwappedMultiset(a: seq<nat>, b: seq<nat>, c: seq<nat>, d: seq<nat>)
    ensures multiset(a + c + b + d) == multiset(a + b + c + d)
  {
  }

  /** Exchanging the two middle blocks of `a + b + c + d`. */
  lemma SwappedBlocks(a: seq<nat>, b: seq<nat>, c: seq<nat>, d: seq<nat>)
    ensures var r := a + c + b + d;
      && r[..|a|] == a && r[|a| + |c| + |b|..] == d
      && (|b| > 0 ==> r[|a| + |c| + |b| - 1] == b[|b| - 1])
      && (|c| > 0 ==> r[|a| + |c| - 1] == c[|c| - 1])
  {
    var r := a + c + b + d;
    assert r == a + (c + b + d);
    assert r == (a + c + b) + d;
  }

  /** A permutation of ids of the arena holds ids of the arena only. */
  lemma ArenaPerm(es: seq<Edge>, s: seq<nat>, r: seq<nat>)
    requires InArena(es, s) && multiset(r) == multiset(s)
    ensures InArena(es, r)
  {
    forall k | 0 <= k < |r| ensures r[k] < |es| {
      assert r[k] in multiset(r);
      assert r[k] in s;
    }
  }

  /** A permutation of a sequence without repeated ids has none either. */
  lemma DistinctByMultiset(s: seq<nat>, r: seq<nat>)
    requires multiset(r) == multiset(s)
    ensures Distinct(s) ==> Distinct(r)
  {
    if Distinct(s) {
      DistinctPerm(s, r);
    }
  }

  lemma DistinctPerm(s: seq<nat>, r: seq<nat>)
    requires Distinct(s) && multiset(r) == multiset(s)
    ensures Distinct(r)
  {
    forall k, m | 0 <= k < m < |r|
      ensures r[k] != r[m]
    {
      if r[k] == r[m] {
        RepeatCounts(r, k, m);
        DistinctCounts(s, r[k]);
        assert false;
      }
    }
  }

  lemma RepeatCounts(r: seq<nat>, k: nat, m: nat)
    requires k < m < |r| && r[k] == r[m]
    ensures multiset(r)[r[k]] >= 2
  {
    assert r == r[..k] + [r[k]] + r[k + 1..m] + [r[m]] + r[m + 1..];
  }

  lemma {:induction false} DistinctCounts(s: seq<nat>, x: nat)
    requires Distinct(s)
    ensures multiset(s)[x] <= 1
  {
    if s != [] {
      var tail := s[1..];
      assert Distinct(tail);
      DistinctCounts(tail, x);
      assert s == [s[0]] + tail;
      if s[0] == x {
        assert x !in tail by {
          forall b | 0 <= b < |tail| ensures tail[b] != x {
            assert s[b + 1] == tail[b];
          }
        }
      }
    }
  }

  // ---------------------------------------------------------------------
  // Preparing for the next scan-beam (gpc/gpc.js:740-769)
  // ---------------------------------------------------------------------

  /** The edge ends at `yt` and its bound goes on in a successor edge. */
  predicate Replaces(e: Edge, yt: real) {
    e.top.y == yt && e.succ.Some?
  }

  /** The edge that stands at the place of edge `id` in the next beam. */
  function Target(es: seq<Edge>, id: nat, yt: real): nat
    requires id < |es|
  {
    if Replaces(es[id], yt) then es[id].succ.value else id
  }

  function Targets(es: seq<Edge>, ids: seq<nat>, yt: real): (r: seq<nat>)
    requires InArena(es, ids)
    ensures |r| == |ids|
  {
    seq(|ids|, k requires 0 <= k < |ids| => Target(es, ids[k], yt))
  }

  /** The ABOVE values of `from` rolled into the BELOW values of `e`. */
  function RollBelow(e: Edge, from: Edge): Edge {
    e.(outpBelow := from.outpAbove, bstateBelow := from.bstateAbove, bundleBelow := from.bundleAbove)
  }

  /** One step of the pass for edge `e`: a replaced edge hands its ABOVE
      values to its successor as BELOW values; any other edge rolls its own
      ABOVE values into BELOW and moves `xb` to `xt`.  Either way the edge's
      own `outp[ABOVE]` is cleared. */
  function PrepareStep(es: seq<Edge>, e: nat, yt: real): (r: seq<Edge>)
    requires ValidArena(es) && e < |es|
    ensures |r| == |es| && ValidArena(r)
    ensures forall i :: 0 <= i < |es| ==>
              r[i] == es[i].(xb := r[i].xb, outpAbove := r[i].outpAbove, outpBelow := r[i].outpBelow,
                             bstateBelow := r[i].bstateBelow, bundleBelow := r[i].bundleBelow)
    ensures forall i :: 0 <= i < |es| && i != e && i != Target(es, e, yt) ==> r[i] == es[i]
  {
    var ed := es[e];
    if Replaces(ed, yt) then
      var n := ed.succ.value;
      var es1 := es[n := RollBelow(es[n], ed)];
      es1[e := es1[e].(outpAbove := None)]
    else
      es[e := RollBelow(ed, ed).(xb := ed.xt, outpAbove := None)]
  }

  /** The pass over the AET edges `rest` once the edges `built` of the next
      AET are in place: the records and the next AET. */
  function PreparePass(es: seq<Edge>, built: seq<nat>, rest: seq<nat>, yt: real)
    : (r: (seq<Edge>, seq<nat>))
    requires ValidArena(es) && InArena(es, rest)
    ensures |r.0| == |es|
    decreases |rest|
  {
    if rest == [] then (es, built)
    else PreparePass(PrepareStep(es, rest[0], yt), built + [Target(es, rest[0], yt)], rest[1..], yt)
  }

  lemma {:induction false} TargetsFrame(es: seq<Edge>, es': seq<Edge>, ids: seq<nat>, yt: real)
    requires InArena(es, ids) && |es'| == |es|
    requires forall i :: 0 <= i < |es| ==> es'[i].top == es[i].top && es'[i].succ == es[i].succ
    ensures Targets(es', ids, yt) == Targets(es, ids, yt)
  {
  }

  /** The next AET has, at each position, the old edge or, where the old
      edge ends at `yt` and has a successor, that successor; and the pass
      changes only `xb`, `outp` and the BELOW state and bits. */
  lemma {:induction false} PrepareOrder(es: seq<Edge>, built: seq<nat>, rest: seq<nat>, yt: real)
    requires ValidArena(es) && InArena(es, rest)
    ensures var r := PreparePass(es, built, rest, yt);
      && r.1 == built + Targets(es, rest, yt)
      && (forall i :: 0 <= i < |es| ==>
            r.0[i] == es[i].(xb := r.0[i].xb, outpAbove := r.0[i].outpAbove, outpBelow := r.0[i].outpBelow,
                             bstateBelow := r.0[i].bstateBelow, bundleBelow := r.0[i].bundleBelow))
  {
    PrepareIds(es, built, rest, yt);
    PrepareFields(es, built, rest, yt);
  }

  lemma {:induction false} PrepareIds(es: seq<Edge>, built: seq<nat>, rest: seq<nat>, yt: real)
    requires ValidArena(es) && InArena(es, rest)
    ensures PreparePass(es, built, rest, yt).1 == built + Targets(es, rest, yt)
    decreases |rest|
  {
    if rest != [] {
      var es' := PrepareStep(es, rest[0], yt);
      var x := Target(es, rest[0], yt);
      PrepareIds(es', built + [x], rest[1..], yt);
      assert Targets(es', rest[1..], yt) == Targets(es, rest[1..], yt) by {
        TargetsFrame(es, es', rest[1..], yt);
      }
      assert Targets(es, rest, yt) == [x] + Targets(es, rest[1..], yt);
      ConcatAssoc(built, [x], Targets(es, rest[1..], yt));
    } else {
      assert Targets(es, rest, yt) == [];
      assert built + [] == built;
    }
  }

  lemma {:induction false} PrepareFields(es: seq<Edge>, built: seq<nat>, rest: seq<nat>, yt: real)
    requires ValidArena(es) && InArena(es, rest)
    ensures var r := PreparePass(es, built, rest, yt);
      forall i :: 0 <= i < |es| ==>
        r.0[i] == es[i].(xb := r.0[i].xb, outpAbove := r.0[i].outpAbove, outpBelow := r.0[i].outpBelow,
                         bstateBelow := r.0[i].bstateBelow, bundleBelow := r.0[i].bundleBelow)
    decreases |rest|
  {
    if rest != [] {
      PrepareFields(PrepareStep(es, rest[0], yt), built + [Target(es, rest[0], yt)], rest[1..], yt);
    }
  }

  /** The edges the pass changes do not overlap: no edge occurs twice in the
      AET, no two positions get the same edge in the next AET, and no
      successor that replaces an edge is itself in the AET. */
  predicate PrepareSafe(es: seq<Edge>, rest: seq<nat>, yt: real)
    requires InArena(es, rest)
  {
    && Distinct(rest) && Distinct(Targets(es, rest, yt))
    && forall k, m :: 0 <= k < |rest| && 0 <= m < |rest| && Replaces(es[rest[k]], yt) ==>
         es[rest[k]].succ.value != rest[m]
  }

  /** What the pass leaves on the edge of position `k` and on the edge that
      takes its place. */
  predicate RolledAt(es: seq<Edge>, r: seq<Edge>, e: nat, yt: real)
    requires e < |es| && |r| == |es| && Target(es, e, yt) < |es|
  {
    var n := Target(es, e, yt);
    && r[n].outpBelow == es[e].outpAbove
    && r[n].bstateBelow == es[e].bstateAbove
    && r[n].bundleBelow == es[e].bundleAbove
    && r[e].outpAbove == None
    && (Replaces(es[e], yt) ==> r[n].outpAbove == es[n].outpAbove && r[n].xb == es[n].xb)
    && (!Replaces(es[e], yt) ==> r[e].xb == es[e].xt)
  }

  /** The pass changes only the edges of `rest` and the edges that take
      their places. */
  lemma {:induction false} PrepareTouches(es: seq<Edge>, built: seq<nat>, rest: seq<nat>, yt: real)
    requires ValidArena(es) && InArena(es, rest)
    ensures var r := PreparePass(es, built, rest, yt).0;
      forall i :: 0 <= i < |es| && i !in rest && i !in Targets(es, rest, yt) ==> r[i] == es[i]
    decreases |rest|
  {
    if rest != [] {
      var es' := PrepareStep(es, rest[0], yt);
      PrepareTouches(es', built + [Target(es, rest[0], yt)], rest[1..], yt);
      TargetsFrame(es, es', rest[1..], yt);
      var ts := Targets(es, rest, yt);
      assert ts[0] == Target(es, rest[0], yt);
      assert forall m :: 0 <= m < |rest| - 1 ==> Targets(es, rest[1..], yt)[m] == ts[m + 1];
    }
  }

  lemma PrepareSafeTail(es: seq<Edge>, es': seq<Edge>, rest: seq<nat>, yt: real)
    requires ValidArena(es) && InArena(es, rest) && |rest| > 0 && PrepareSafe(es, rest, yt)
    requires |es'| == |es|
    requires forall i :: 0 <= i < |es| ==> es'[i].top == es[i].top && es'[i].succ == es[i].succ
    ensures PrepareSafe(es', rest[1..], yt)
  {
    var tail := rest[1..];
    TargetsFrame(es, es', tail, yt);
    var ts := Targets(es, rest, yt);
    assert forall m :: 0 <= m < |tail| ==> Targets(es, tail, yt)[m] == ts[m + 1];
    assert forall m :: 0 <= m < |tail| ==> tail[m] == rest[m + 1];
  }

  /** Facts about the first edge `e` of `rest` that keep the rest of the pass
      away from `e` and from the edge that takes its place. */
  lemma PrepareFirstApart(es: seq<Edge>, rest: seq<nat>, yt: real)
    requires ValidArena(es) && InArena(es, rest) && |rest| > 0 && PrepareSafe(es, rest, yt)
    ensures var e := rest[0]; var n := Target(es, e, yt);
      && e !in rest[1..] && e !in Targets(es, rest[1..], yt)
      && n !in rest[1..] && n !in Targets(es, rest[1..], yt)
      && (Replaces(es[e], yt) ==> n != e)
  {
    var e := rest[0];
    var tail := rest[1..];
    var ts := Targets(es, rest, yt);
    assert forall m :: 0 <= m < |tail| ==> Targets(es, tail, yt)[m] == ts[m + 1] && tail[m] == rest[m + 1];
    assert ts[0] == Target(es, e, yt);
  }

  /** The pass's effect on edges of `rest` other than the first: what the
      rest of the pass does, read back in terms of the records before the
      first step. */
  lemma PrepareLaterApart(es: seq<Edge>, rest: seq<nat>, yt: real, k: nat)
    requires ValidArena(es) && InArena(es, rest) && 0 < k < |rest| && PrepareSafe(es, rest, yt)
    ensures var e := rest[0]; var n := Target(es, e, yt); var x := rest[k];
      && x != e && x != n && Target(es, x, yt) != e && Target(es, x, yt) != n
  {
    var ts := Targets(es, rest, yt);
    assert ts[0] == Target(es, rest[0], yt) && ts[k] == Target(es, rest[k], yt);
  }

  /** Under `PrepareSafe`, at each position the edge that stands there in
      the next beam has as BELOW values the old edge's ABOVE values; the old
      edge's `outp[ABOVE]` is cleared; a kept edge moves `xb` to `xt`; and
      a successor keeps its own `outp[ABOVE]` and `xb`. */
  lemma {:induction false} PrepareRolls(es: seq<Edge>, built: seq<nat>, rest: seq<nat>, yt: real)
    requires ValidArena(es) && InArena(es, rest) && PrepareSafe(es, rest, yt)
    ensures var r := PreparePass(es, built, rest, yt).0;
      forall k :: 0 <= k < |rest| ==> RolledAt(es, r, rest[k], yt)
    decreases |rest|
  {
    if rest != [] {
      var e := rest[0];
      var tail := rest[1..];
      var es' := PrepareStep(es, e, yt);
      var built' := built + [Target(es, e, yt)];
      var r := PreparePass(es, built, rest, yt).0;
      assert r == PreparePass(es', built', tail, yt).0;
      PrepareSafeTail(es, es', rest, yt);
      PrepareRolls(es', built', tail, yt);
      PrepareTouches(es', built', tail, yt);
      TargetsFrame(es, es', tail, yt);
      PrepareFirstApart(es, rest, yt);
      forall k | 0 <= k < |rest|
        ensures RolledAt(es, r, rest[k], yt)
      {
        if k > 0 {
          PrepareLaterApart(es, rest, yt, k);
          assert rest[k] == tail[k - 1];
          assert RolledAt(es', r, tail[k - 1], yt);
        }
      }
    }
  }

  /** What the in-place pass leaves once its loop has consumed the whole AET:
      the new AET is the targets, and under `PrepareSafe` it is well formed
      and every position has been rolled. */
  lemma PrepareDone(es: seq<Edge>, r: (seq<Edge>, seq<nat>), rest: seq<nat>, yt: real)
    requires ValidArena(es) && InArena(es, rest) && r == PreparePass(es, [], rest, yt)
    requires |r.0| == |es|
    ensures r.1 == Targets(es, rest, yt) && InArena(r.0, r.1)
    ensures PrepareSafe(es, rest, yt) ==>
              ValidAet(r.0, r.1) && forall k :: 0 <= k < |r.1| ==> RolledAt(es, r.0, rest[k], yt)
  {
    PrepareOrder(es, [], rest, yt);
    assert [] + Targets(es, rest, yt) == Targets(es, rest, yt);
    if PrepareSafe(es, rest, yt) {
      PrepareRolls(es, [], rest, yt);
    }
  }

  /** If no successor that replaces an edge has an output contour above,
      then after the pass no edge of the next AET has one. */
  lemma PrepareClearsAbove(es: seq<Edge>, rest: seq<nat>, yt: real)
    requires ValidArena(es) && InArena(es, rest) && PrepareSafe(es, rest, yt)
    requires forall k :: 0 <= k < |rest| && Replaces(es[rest[k]], yt) ==> es[es[rest[k]].succ.value].outpAbove == None
    ensures var r := PreparePass(es, [], rest, yt);
      && r.1 == Targets(es, rest, yt) && Distinct(r.1)
      && forall k :: 0 <= k < |rest| ==> r.0[Target(es, rest[k], yt)].outpAbove == None
  {
    PrepareRolls(es, [], rest, yt);
    PrepareOrder(es, [], rest, yt);
    var r := PreparePass(es, [], rest, yt);
    assert [] + Targets(es, rest, yt) == Targets(es, rest, yt);
    forall k | 0 <= k < |rest|
      ensures r.0[Target(es, rest[k], yt)].outpAbove == None
    {
      assert RolledAt(es, r.0, rest[k], yt);
    }
  }
}
