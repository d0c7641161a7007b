/** The output polygon list of the sweep, `TopPolygonNode`, and the two
    passes that turn it into the result (gpc/gpc.js:782-870).

    The linked list of `PolygonNode`s is a sequence; a node's `proxy`
    reference is an index into it.  A contour's vertex chain `v[LEFT]` (a
    linked list of `VertexNode`s) is the sequence of its points in chain
    order.  The nodes are built during the sweep by helpers that are not part
    of this model. */
module Output {
  import opened Common
  import opened Polygons

  /** One `PolygonNode`: `active` (non-zero while the contour is live), the
      node it has been merged into (`proxy`), and, for a node that is its own
      proxy, the contour's `hole` flag and its `v[LEFT]` vertex chain. */
  datatype PolygonNode = PolygonNode(active: nat, proxy: nat, hole: bool, left: seq<Point>)

  /** A contour that survives counting: its hole flag and its vertices in
      `v[LEFT]`-chain order. */
  datatype Contour = Contour(hole: bool, vertices: seq<Point>)

  /** Every proxy reference points into the list. */
  predicate ValidNodes(ns: seq<PolygonNode>) {
    forall i :: 0 <= i < |ns| ==> ns[i].proxy < |ns|
  }

  /** The number of vertices of the contour node `i` stands for. */
  function VertexCount(ns: seq<PolygonNode>, i: nat): nat
    requires ValidNodes(ns) && i < |ns|
  {
    |ns[ns[i].proxy].left|
  }

  /** Node `i` is active and its contour has more than two vertices. */
  predicate Survives(ns: seq<PolygonNode>, i: nat)
    requires ValidNodes(ns) && i < |ns|
  {
    ns[i].active != 0 && VertexCount(ns, i) > 2
  }

  /** The `active` value `count_contours` leaves on node `i`. */
  function CountedActive(ns: seq<PolygonNode>, i: nat): nat
    requires ValidNodes(ns) && i < |ns|
  {
    if Survives(ns, i) then VertexCount(ns, i) else 0
  }

  /** The node list as `count_contours` leaves it. */
  function Counted(ns: seq<PolygonNode>): (r: seq<PolygonNode>)
    requires ValidNodes(ns)
    ensures |r| == |ns| && ValidNodes(r)
    ensures forall i :: 0 <= i < |ns| ==> r[i] == ns[i].(active := CountedActive(ns, i))
  {
    CountedUpTo(ns, |ns|)
  }

  /** The first `k` nodes as `count_contours` leaves them. */
  function CountedUpTo(ns: seq<PolygonNode>, k: nat): (r: seq<PolygonNode>)
    requires ValidNodes(ns) && k <= |ns|
    ensures |r| == k
    ensures forall i :: 0 <= i < k ==> r[i] == ns[i].(active := CountedActive(ns, i))
  {
    if k == 0 then [] else CountedUpTo(ns, k - 1) + [ns[k - 1].(active := CountedActive(ns, k - 1))]
  }

  /** The contour node `i` stands for. */
  function ContourOf(ns: seq<PolygonNode>, i: nat): Contour
    requires ValidNodes(ns) && i < |ns|
  {
    Contour(ns[ns[i].proxy].hole, ns[ns[i].proxy].left)
  }

  /** The contours of the surviving nodes among the first `k`, in list order. */
  function Survivors(ns: seq<PolygonNode>, k: nat): (r: seq<Contour>)
    requires ValidNodes(ns) && k <= |ns|
    ensures |r| <= k
    ensures forall c :: c in r ==> |c.vertices| > 2
  {
    if k == 0 then []
    else Survivors(ns, k - 1) + (if Survives(ns, k - 1) then [ContourOf(ns, k - 1)] else [])
  }

  /** A contour as `getResult` exports it when there are several: a fresh
      polygon carrying the hole flag, holding one simple polygon. */
  function Nested(c: Contour): Poly {
    Complex(c.hole, [Simple(c.vertices, true)])
  }

  function NestedAll(cs: seq<Contour>): (r: seq<Poly>)
    ensures |r| == |cs|
  {
    if cs == [] then [] else NestedAll(cs[..|cs| - 1]) + [Nested(cs[|cs| - 1])]
  }

  lemma {:induction false} NestedAllAt(cs: seq<Contour>, i: nat)
    requires i < |cs|
    ensures NestedAll(cs)[i] == Nested(cs[i])
  {
    if i < |cs| - 1 {
      NestedAllAt(cs[..|cs| - 1], i);
    }
  }

  /** The inner polygons of `result` after the first pass of `getResult`: a
      lone contour goes into `result` itself (its points, not its hole flag,
      reach the final result), several contours go in one nested polygon each. */
  function Exported(cs: seq<Contour>): (r: seq<Poly>)
    ensures |r| == |cs|
  {
    if |cs| == 1 then [Simple(cs[0].vertices, true)] else NestedAll(cs)
  }

  /** An exported inner polygon holds one contour of more than two vertices. */
  predicate Proper(p: Poly) {
    || (p.Simple? && |p.points| > 2)
    || (p.Complex? && |p.inners| == 1 && p.inners[0].Simple? && |p.inners[0].points| > 2)
  }

  /** The non-hole inner polygons of `ps`, in order. */
  function NonHoles(ps: seq<Poly>): (r: seq<Poly>)
    ensures |r| <= |ps|
    ensures forall i :: 0 <= i < |r| ==> !PolyIsHole(r[i])
  {
    if ps == [] then []
    else NonHoles(ps[..|ps| - 1]) + (if PolyIsHole(ps[|ps| - 1]) then [] else [ps[|ps| - 1]])
  }

  /** The hole inner polygons of `ps`, in order. */
  function Holes(ps: seq<Poly>): (r: seq<Poly>)
    ensures |r| <= |ps|
    ensures forall i :: 0 <= i < |r| ==> PolyIsHole(r[i])
  {
    if ps == [] then []
    else Holes(ps[..|ps| - 1]) + (if PolyIsHole(ps[|ps| - 1]) then [ps[|ps| - 1]] else [])
  }

  lemma {:induction false} PartitionCounts(ps: seq<Poly>)
    ensures multiset(NonHoles(ps)) + multiset(Holes(ps)) == multiset(ps)
    ensures |NonHoles(ps)| + |Holes(ps)| == |ps|
  {
    if ps != [] {
      var init := ps[..|ps| - 1];
      var last := ps[|ps| - 1];
      PartitionCounts(init);
      assert ps == init + [last];
      assert multiset(ps) == multiset(init) + multiset{last};
      if PolyIsHole(last) {
        assert NonHoles(ps) == NonHoles(init) + [];
        assert Holes(ps) == Holes(init) + [last];
        assert NonHoles(init) + [] == NonHoles(init);
      } else {
        assert NonHoles(ps) == NonHoles(init) + [last];
        assert Holes(ps) == Holes(init) + [];
        assert Holes(init) + [] == Holes(init);
      }
    }
  }

  lemma {:induction false} NonHolesAppend(a: seq<Poly>, b: seq<Poly>)
    ensures NonHoles(a + b) == NonHoles(a) + NonHoles(b)
    decreases |b|
  {
    if b == [] {
      assert a + b == a;
    } else {
      var init := b[..|b| - 1];
      var ab := a + b;
      NonHolesAppend(a, init);
      assert ab[..|ab| - 1] == a + init;
      assert ab[|ab| - 1] == b[|b| - 1];
    }
  }

  lemma {:induction false} HolesAppend(a: seq<Poly>, b: seq<Poly>)
    ensures Holes(a + b) == Holes(a) + Holes(b)
    decreases |b|
  {
    if b == [] {
      assert a + b == a;
    } else {
      var init := b[..|b| - 1];
      var ab := a + b;
      HolesAppend(a, init);
      assert ab[..|ab| - 1] == a + init;
      assert ab[|ab| - 1] == b[|b| - 1];
    }
  }

  lemma {:induction false} FilterUniform(ps: seq<Poly>, holes: bool)
    requires forall i :: 0 <= i < |ps| ==> PolyIsHole(ps[i]) == holes
    ensures NonHoles(ps) == if holes then [] else ps
    ensures Holes(ps) == if holes then ps else []
  {
    if ps != [] {
      FilterUniform(ps[..|ps| - 1], holes);
      assert ps[..|ps| - 1] + [ps[|ps| - 1]] == ps;
    }
  }

  /** The order `getResult` puts the inner polygons in: the non-holes, then
      the holes. */
  function HolesLast(ps: seq<Poly>): seq<Poly> {
    NonHoles(ps) + Holes(ps)
  }

  /** `HolesLast` is a stable partition: a permutation with every non-hole
      before every hole, keeping the relative order within each group. */
  lemma HolesLastIsStablePartition(ps: seq<Poly>)
    ensures var r := HolesLast(ps);
      && |r| == |ps| && multiset(r) == multiset(ps)
      && (forall i, j :: 0 <= i < j < |r| && PolyIsHole(r[i]) ==> PolyIsHole(r[j]))
      && NonHoles(r) == NonHoles(ps) && Holes(r) == Holes(ps)
  {
    var nh := NonHoles(ps);
    var h := Holes(ps);
    PartitionCounts(ps);
    NonHolesAppend(nh, h);
    HolesAppend(nh, h);
    FilterUniform(nh, false);
    FilterUniform(h, true);
  }

  /** The inner polygons `getResult` returns for the node list `ns`. */
  function ResultList(ns: seq<PolygonNode>): seq<Poly>
    requires ValidNodes(ns)
  {
    HolesLast(Exported(Survivors(ns, |ns|)))
  }

  /** `result` (hole flag, inner polygons) after the first `k` nodes of the
      first pass of `getResult`, when `n` contours were counted. */
  function FirstPass(ns: seq<PolygonNode>, k: nat, n: nat): (bool, seq<Poly>)
    requires ValidNodes(ns) && k <= |ns|
  {
    if k == 0 then (false, [])
    else
      var prev := FirstPass(ns, k - 1, n);
      if ns[k - 1].active == 0 then prev
      else
        var px := ns[ns[k - 1].proxy];
        if n > 1 then (prev.0, prev.1 + [Complex(px.hole, AddPoints([], px.left))])
        else (prev.0 || px.hole, AddPoints(prev.1, px.left))
  }

  /** What the first pass of `getResult` reads from a counted node. */
  lemma CountedNode(ns: seq<PolygonNode>, i: nat)
    requires ValidNodes(ns) && i < |ns|
    ensures var cn := Counted(ns);
      && (cn[i].active != 0 <==> Survives(ns, i))
      && cn[cn[i].proxy].hole == ContourOf(ns, i).hole
      && cn[cn[i].proxy].left == ContourOf(ns, i).vertices
  {
  }

  lemma {:induction false} FirstPassSeveral(ns: seq<PolygonNode>, k: nat, n: nat)
    requires ValidNodes(ns) && k <= |ns| && n > 1
    ensures FirstPass(Counted(ns), k, n).1 == NestedAll(Survivors(ns, k))
  {
    if k > 0 {
      FirstPassSeveral(ns, k - 1, n);
    }
    FirstPassSeveralStep(ns, k, n);
  }

  lemma FirstPassSeveralStep(ns: seq<PolygonNode>, k: nat, n: nat)
    requires ValidNodes(ns) && k <= |ns| && n > 1
    requires k > 0 ==> FirstPass(Counted(ns), k - 1, n).1 == NestedAll(Survivors(ns, k - 1))
    ensures FirstPass(Counted(ns), k, n).1 == NestedAll(Survivors(ns, k))
  {
    if k == 0 {
      assert NestedAll([]) == [];
      return;
    }
    var cn := Counted(ns);
    CountedNode(ns, k - 1);
    var before := Survivors(ns, k - 1);
    var done := FirstPass(cn, k - 1, n).1;
    if Survives(ns, k - 1) {
      var c := ContourOf(ns, k - 1);
      PointsIntoEmpty(c.vertices);
      assert FirstPass(cn, k, n).1 == done + [Nested(c)];
      assert Survivors(ns, k) == before + [c];
      NestedAllSnoc(before, c);
    } else {
      assert FirstPass(cn, k, n).1 == done;
      assert Survivors(ns, k) == before + [];
      assert before + [] == before;
    }
  }

  lemma NestedAllSnoc(cs: seq<Contour>, c: Contour)
    ensures NestedAll(cs + [c]) == NestedAll(cs) + [Nested(c)]
  {
    var s := cs + [c];
    assert s[..|s| - 1] == cs;
  }

  lemma {:induction false} FirstPassSingle(ns: seq<PolygonNode>, k: nat, n: nat)
    requires ValidNodes(ns) && k <= |ns| && |Survivors(ns, k)| <= 1 && n <= 1
    ensures FirstPass(Counted(ns), k, n).1
         == if |Survivors(ns, k)| == 0 then [] else [Simple(Survivors(ns, k)[0].vertices, true)]
  {
    if k > 0 {
      FirstPassSingle(ns, k - 1, n);
      CountedNode(ns, k - 1);
      if Survives(ns, k - 1) {
        PointsIntoEmpty(ContourOf(ns, k - 1).vertices);
      }
    }
  }

  /** The first pass of `getResult` exports exactly the surviving contours,
      in list order. */
  lemma FirstPassExports(ns: seq<PolygonNode>, n: nat)
    requires ValidNodes(ns) && n == |Survivors(ns, |ns|)|
    ensures FirstPass(Counted(ns), |ns|, n).1 == Exported(Survivors(ns, |ns|))
  {
    if n > 1 {
      FirstPassSeveral(ns, |ns|, n);
    } else {
      FirstPassSingle(ns, |ns|, n);
      var cs := Survivors(ns, |ns|);
      if n == 0 {
        assert cs == [];
        assert NestedAll(cs) == [];
      }
    }
  }

  /** Every inner polygon of the result holds one contour of more than two
      vertices, and there is one per surviving contour. */
  lemma ResultIsProper(ns: seq<PolygonNode>)
    requires ValidNodes(ns)
    ensures |ResultList(ns)| == |Survivors(ns, |ns|)|
    ensures forall p :: p in ResultList(ns) ==> Proper(p)
  {
    var cs := Survivors(ns, |ns|);
    ExportedProper(cs);
    HolesLastIsStablePartition(Exported(cs));
    ProperPerm(Exported(cs), ResultList(ns));
  }

  lemma ExportedProper(cs: seq<Contour>)
    requires forall c :: c in cs ==> |c.vertices| > 2
    ensures forall i :: 0 <= i < |Exported(cs)| ==> Proper(Exported(cs)[i])
  {
    var ex := Exported(cs);
    forall i | 0 <= i < |ex|
      ensures Proper(ex[i])
    {
      assert cs[i] in cs;
      if |cs| == 1 {
        assert ex[i] == Simple(cs[0].vertices, true);
      } else {
        NestedAllAt(cs, i);
      }
    }
  }

  lemma ProperPerm(ex: seq<Poly>, r: seq<Poly>)
    requires multiset(r) == multiset(ex)
    requires forall i :: 0 <= i < |ex| ==> Proper(ex[i])
    ensures forall p :: p in r ==> Proper(p)
  {
    forall p | p in r
      ensures Proper(p)
    {
      assert p in multiset(r);
      assert p in multiset(ex);
      var i :| 0 <= i < |ex| && ex[i] == p;
    }
  }

  /** With several contours, the non-hole inner polygons of the result are
      the non-hole surviving contours, each nested in a polygon of its own, in
      the order of the output list; and likewise the holes. */
  lemma ResultOrder(ns: seq<PolygonNode>)
    requires ValidNodes(ns) && |Survivors(ns, |ns|)| > 1
    ensures NonHoles(ResultList(ns)) == NestedAll(ContoursWhere(Survivors(ns, |ns|), false))
    ensures Holes(ResultList(ns)) == NestedAll(ContoursWhere(Survivors(ns, |ns|), true))
  {
    var cs := Survivors(ns, |ns|);
    HolesLastIsStablePartition(Exported(cs));
    assert Exported(cs) == NestedAll(cs);
    FilterOfNested(cs);
  }

  /** The contours of `cs` whose hole flag is `hole`, in order. */
  function ContoursWhere(cs: seq<Contour>, hole: bool): seq<Contour> {
    if cs == [] then []
    else ContoursWhere(cs[..|cs| - 1], hole) + (if cs[|cs| - 1].hole == hole then [cs[|cs| - 1]] else [])
  }

  lemma {:induction false} FilterOfNested(cs: seq<Contour>)
    ensures NonHoles(NestedAll(cs)) == NestedAll(ContoursWhere(cs, false))
    ensures Holes(NestedAll(cs)) == NestedAll(ContoursWhere(cs, true))
  {
    if cs != [] {
      var init := cs[..|cs| - 1];
      var last := cs[|cs| - 1];
      FilterOfNested(init);
      var all := NestedAll(cs);
      assert all[..|all| - 1] == NestedAll(init);
      assert all[|all| - 1] == Nested(last);
      var t := ContoursWhere(cs, last.hole);
      assert t == ContoursWhere(init, last.hole) + [last];
      assert t[..|t| - 1] == ContoursWhere(init, last.hole);
      assert ContoursWhere(cs, !last.hole) == ContoursWhere(init, !last.hole) + [];
      assert ContoursWhere(init, !last.hole) + [] == ContoursWhere(init, !last.hole);
    }
  }

  class TopPolygonNode {
    /** The output polygon list, from `top_node` along `next`. */
    var nodes: seq<PolygonNode>

    ghost predicate Valid()
      reads this
    {
      ValidNodes(nodes)
    }

    /** `count_contours`: records the vertex count in `active` for every
        active contour with more than two vertices, clears `active` on the
        others, and answers how many contours survived. */
    method CountContours() returns (nc: nat)
      requires Valid()
      modifies this
      ensures Valid()
      ensures nodes == Counted(old(nodes))
      ensures nc == |Survivors(old(nodes), |old(nodes)|)|
    {
      ghost var ns := nodes;
      nc := 0;
      var i := 0;
      while i < |nodes|
        invariant 0 <= i <= |ns| == |nodes|
        invariant forall j :: 0 <= j < |ns| ==> nodes[j] == ns[j].(active := nodes[j].active)
        invariant forall j :: 0 <= j < i ==> nodes[j].active == CountedActive(ns, j)
        invariant forall j :: i <= j < |ns| ==> nodes[j] == ns[j]
        invariant nc == |Survivors(ns, i)|
      {
        if nodes[i].active != 0 {
          var nv := |nodes[nodes[i].proxy].left|;
          if nv > 2 {
            nodes := nodes[i := nodes[i].(active := nv)];
            nc := nc + 1;
          } else {
            nodes := nodes[i := nodes[i].(active := 0)];
          }
        }
        i := i + 1;
      }
      assert nodes == Counted(ns);
    }

    /** `getResult`: a fresh polygon holding the surviving contours, non-holes
        first; empty when no contour survives. */
    method GetResult() returns (result: PolyDefault)
      requires Valid()
      modifies this
      ensures nodes == Counted(old(nodes))
      ensures fresh(result) && !result.hole
      ensures result.list == ResultList(old(nodes))
      ensures |Survivors(old(nodes), |old(nodes)|)| == 0 ==> result.list == []
    {
      ghost var ns0 := nodes;
      result := new PolyDefault();
      var numContours := CountContours();
      if numContours > 0 {
        ghost var ns := nodes;
        var i := 0;
        while i < |nodes|
          invariant nodes == ns && 0 <= i <= |ns|
          invariant fresh(result)
          invariant (result.hole, result.list) == FirstPass(ns, i, numContours)
        {
          ExportNode(result, nodes, i, numContours);
          i := i + 1;
        }
        FirstPassExports(ns0, numContours);
        result := SortHolesLast(result);
      }
    }
  }

  /** One turn of the first loop of `getResult`, for node `i`: a live node
      is exported into `result` itself when `n` is one, or into a fresh
      polygon added to `result` when there are several. */
  method ExportNode(result: PolyDefault, ns: seq<PolygonNode>, i: nat, n: nat)
    requires ValidNodes(ns) && i < |ns|
    requires (result.hole, result.list) == FirstPass(ns, i, n)
    modifies result
    ensures (result.hole, result.list) == FirstPass(ns, i + 1, n)
  {
    var node := ns[i];
    if node.active != 0 {
      var poly := result;
      if n > 1 {
        poly := new PolyDefault();
      }
      ExportContour(poly, ns[node.proxy]);
      if n > 1 {
        var _ := result.AddPoly(poly.Value());
      }
    }
  }

  /** The body of the first loop of `getResult` for one live contour: set the
      hole flag if the contour is a hole, then add its vertices in chain
      order. */
  method ExportContour(poly: PolyDefault, px: PolygonNode)
    modifies poly
    ensures poly.hole == (old(poly.hole) || px.hole)
    ensures poly.list == AddPoints(old(poly.list), px.left)
  {
    if px.hole {
      var _ := poly.SetIsHole(px.hole);
    }
    var k := 0;
    while k < |px.left|
      invariant 0 <= k <= |px.left|
      invariant poly.list == AddPoints(old(poly.list), px.left[..k])
      invariant poly.hole == (old(poly.hole) || px.hole)
    {
      poly.AddPoint(px.left[k]);
      assert px.left[..k + 1][..k] == px.left[..k];
      k := k + 1;
    }
    assert px.left[..k] == px.left;
  }

  /** The last step of `getResult`: a fresh polygon with the inner polygons of
      `orig`, the non-holes first and then the holes. */
  method SortHolesLast(orig: PolyDefault) returns (result: PolyDefault)
    ensures fresh(result) && !result.hole
    ensures result.list == HolesLast(orig.list)
  {
    result := new PolyDefault();
    ghost var ps := orig.list;
    var n := orig.GetNumInnerPoly();
    var j := 0;
    while j < n
      invariant 0 <= j <= n == |ps| && orig.list == ps
      invariant fresh(result) && !result.hole
      invariant result.list == NonHoles(ps[..j])
    {
      var inner := orig.GetInnerPoly(j);
      FilterStep(ps, j);
      if !PolyIsHole(inner) {
        var _ := result.AddPoly(inner);
      }
      j := j + 1;
    }
    assert ps[..j] == ps;
    j := 0;
    while j < n
      invariant 0 <= j <= n == |ps| && orig.list == ps
      invariant fresh(result) && !result.hole
      invariant result.list == NonHoles(ps) + Holes(ps[..j])
    {
      var inner := orig.GetInnerPoly(j);
      FilterStep(ps, j);
      if PolyIsHole(inner) {
        var _ := result.AddPoly(inner);
      }
      j := j + 1;
    }
    assert ps[..j] == ps;
  }

  /** One more inner polygon considered by the two loops of the sort. */
  lemma FilterStep(ps: seq<Poly>, j: nat)
    requires j < |ps|
    ensures NonHoles(ps[..j + 1]) == NonHoles(ps[..j]) + (if PolyIsHole(ps[j]) then [] else [ps[j]])
    ensures Holes(ps[..j + 1]) == Holes(ps[..j]) + (if PolyIsHole(ps[j]) then [ps[j]] else [])
  {
    assert ps[..j + 1][..j] == ps[..j];
  }
}
