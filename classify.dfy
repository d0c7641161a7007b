/** The fixed boolean rules of `Clip.clip` (gpc/gpc.js) that decide, for one
    edge at a scan-beam boundary or for one crossing of two edges inside a
    beam, whether the edge contributes to the result and which of the four
    quadrants around the vertex (top-right, top-left, bottom-right,
    bottom-left) lie inside the result polygon. */
module Classify {
  import opened Common

  /** `OperationType`: GPC_DIFF, GPC_INT, GPC_XOR, GPC_UNION. */
  datatype Operation = Diff | Int | Xor | Union

  /** `HState`: no horizontal edge (NH, the value 0), bottom horizontal (BH),
      top horizontal (TH). */
  datatype HState = NH | BH | TH

  /** The `horiz` array of `Clip.clip`, indexed by polygon type. */
  type HPair = Pair<HState>

  /** Which quadrants around a vertex lie inside the result. */
  datatype Quadrants = Quadrants(tr: bool, tl: bool, br: bool, bl: bool)

  datatype Classification = Classification(contributing: bool, quads: Quadrants)

  /** All four quadrants on the same side of the result: the vertex classes
      NUL and FUL, which the output builder ignores. */
  predicate Uniform(q: Quadrants) {
    q.tr == q.tl == q.br == q.bl
  }

  function Complement(q: Quadrants): Quadrants {
    Quadrants(!q.tr, !q.tl, !q.br, !q.bl)
  }

  function Flip(p: BitPair): BitPair {
    Pair(!p.clip, !p.subj)
  }

  /** The parities `p` after passing an edge whose ABOVE bundle bits are
      `b`: each parity toggles by that edge's bit of the same polygon. */
  function Toggle(p: BitPair, b: BitPair): BitPair {
    Pair(p.clip != b.clip, p.subj != b.subj)
  }

  // ---------------------------------------------------------------------
  // Reference definitions: how the occupancies of one quadrant by the two
  // input polygons combine under each operation.  DIFF uses the INT rule;
  // the clip polygon is inverted through its starting parity instead.
  // ---------------------------------------------------------------------

  function Combine(op: Operation, c: bool, s: bool): bool {
    match op
    case Diff => c && s
    case Int => c && s
    case Xor => c != s
    case Union => c || s
  }

  function CombineQuads(op: Operation, c: Quadrants, s: Quadrants): Quadrants {
    Quadrants(Combine(op, c.tr, s.tr), Combine(op, c.tl, s.tl),
              Combine(op, c.br, s.br), Combine(op, c.bl, s.bl))
  }

  /** `horiz[t] != HState.NH ? 1 : 0` */
  function HBit(h: HState): bool {
    h != NH
  }

  /** Occupancy by ONE input polygon of the four quadrants around an edge at
      a boundary: below-right is inside iff the parity to the left is odd;
      the edge's ABOVE bundle bit toggles the below-left quadrant, a pending
      horizontal toggles the top ones, the BELOW bundle bit the top-left. */
  function BoundaryOccupancy(parity: bool, h: HState, above: bool, below: bool): Quadrants {
    Quadrants(tr := parity != HBit(h),
              tl := (parity != HBit(h)) != below,
              br := parity,
              bl := parity != above)
  }

  /** `exists[t] = bundle[ABOVE][t] + (bundle[BELOW][t] << 1)` */
  function ExistsCode(above: bool, below: bool): nat {
    (if above then 1 else 0) + 2 * (if below then 1 else 0)
  }

  /** Some bundle of either polygon ends at or passes through the boundary
      here (`exists[CLIP] != 0 || exists[SUBJ] != 0`). */
  predicate EdgeExists(above: BitPair, below: BitPair) {
    ExistsCode(above.clip, below.clip) != 0 || ExistsCode(above.subj, below.subj) != 0
  }

  /** The GPC_DIFF / GPC_INT branch of the boundary rules. */
  function IntBoundary(parity: BitPair, horiz: HPair, above: BitPair, below: BitPair)
    : (c: Classification)
    ensures c.quads == CombineQuads(Int,
                         BoundaryOccupancy(parity.clip, horiz.clip, above.clip, below.clip),
                         BoundaryOccupancy(parity.subj, horiz.subj, above.subj, below.subj))
  {
    var pc, ps := parity.clip, parity.subj;
    var hc, hs := horiz.clip, horiz.subj;
    var ec, es := ExistsCode(above.clip, below.clip), ExistsCode(above.subj, below.subj);
    Classification(
      (ec != 0 && (ps || hs != NH)) ||
      (es != 0 && (pc || hc != NH)) ||
      (ec != 0 && es != 0 && pc == ps),
      Quadrants(
        tr := (pc != HBit(hc)) && (ps != HBit(hs)),
        tl := ((pc != HBit(hc)) != below.clip) && ((ps != HBit(hs)) != below.subj),
        br := pc && ps,
        bl := (pc != above.clip) && (ps != above.subj)))
  }

  /** The GPC_XOR branch of the boundary rules. */
  function XorBoundary(parity: BitPair, horiz: HPair, above: BitPair, below: BitPair)
    : (c: Classification)
    ensures c.quads == CombineQuads(Xor,
                         BoundaryOccupancy(parity.clip, horiz.clip, above.clip, below.clip),
                         BoundaryOccupancy(parity.subj, horiz.subj, above.subj, below.subj))
    ensures c.contributing <==> EdgeExists(above, below)
  {
    var pc, ps := parity.clip, parity.subj;
    var hc, hs := horiz.clip, horiz.subj;
    var ec, es := ExistsCode(above.clip, below.clip), ExistsCode(above.subj, below.subj);
    Classification(
      ec != 0 || es != 0,
      Quadrants(
        tr := (pc != HBit(hc)) != (ps != HBit(hs)),
        tl := ((pc != HBit(hc)) != below.clip) != ((ps != HBit(hs)) != below.subj),
        br := pc != ps,
        bl := (pc != above.clip) != (ps != above.subj)))
  }

  /** The GPC_UNION branch of the boundary rules. */
  function UnionBoundary(parity: BitPair, horiz: HPair, above: BitPair, below: BitPair)
    : (c: Classification)
    ensures c.quads == CombineQuads(Union,
                         BoundaryOccupancy(parity.clip, horiz.clip, above.clip, below.clip),
                         BoundaryOccupancy(parity.subj, horiz.subj, above.subj, below.subj))
  {
    var pc, ps := parity.clip, parity.subj;
    var hc, hs := horiz.clip, horiz.subj;
    var ec, es := ExistsCode(above.clip, below.clip), ExistsCode(above.subj, below.subj);
    Classification(
      (ec != 0 && (!ps || hs != NH)) ||
      (es != 0 && (!pc || hc != NH)) ||
      (ec != 0 && es != 0 && pc == ps),
      Quadrants(
        tr := (pc != HBit(hc)) || (ps != HBit(hs)),
        tl := ((pc != HBit(hc)) != below.clip) || ((ps != HBit(hs)) != below.subj),
        br := pc || ps,
        bl := (pc != above.clip) || (ps != above.subj)))
  }

  /** The contributing test and the quadrant bits of one AET edge at a
      scan-beam boundary, as `Clip.clip` selects them by operation.
      `parity` and `horiz` are the running values left of the edge,
      `above`/`below` its bundle bits.  Each quadrant is the operation's
      combination of the two polygons' own occupancies. */
  function BoundaryClass(op: Operation, parity: BitPair, horiz: HPair,
                         above: BitPair, below: BitPair): (c: Classification)
    ensures c.quads == CombineQuads(op,
                         BoundaryOccupancy(parity.clip, horiz.clip, above.clip, below.clip),
                         BoundaryOccupancy(parity.subj, horiz.subj, above.subj, below.subj))
    ensures op == Xor ==> (c.contributing <==> EdgeExists(above, below))
  {
    match op
    case Diff => IntBoundary(parity, horiz, above, below)
    case Int => IntBoundary(parity, horiz, above, below)
    case Xor => XorBoundary(parity, horiz, above, below)
    case Union => UnionBoundary(parity, horiz, above, below)
  }

  /** Union is intersection of the complements, complemented: the GPC_UNION
      rules at parities `p` are the negation of the GPC_INT rules at the
      flipped parities, for the contributing test and for every quadrant. */
  lemma UnionIsComplementOfIntersection(parity: BitPair, horiz: HPair,
                                        above: BitPair, below: BitPair)
    ensures UnionBoundary(parity, horiz, above, below).contributing
            == IntBoundary(Flip(parity), horiz, above, below).contributing
    ensures UnionBoundary(parity, horiz, above, below).quads
            == Complement(IntBoundary(Flip(parity), horiz, above, below).quads)
  {
  }

  /** An existing edge that the rules call non-contributing never separates
      result from non-result: its four quadrants agree. */
  lemma NonContributingIsUniform(op: Operation, parity: BitPair, horiz: HPair,
                                 above: BitPair, below: BitPair)
    requires EdgeExists(above, below)
    requires !BoundaryClass(op, parity, horiz, above, below).contributing
    ensures Uniform(BoundaryClass(op, parity, horiz, above, below).quads)
  {
  }

  // ---------------------------------------------------------------------
  // Crossing of two edges e0 (left) and e1 (right) inside a scan-beam.
  // ---------------------------------------------------------------------

  /** `in_clip` / `in_subj`: whether the region just below the crossing lies
      inside one input polygon, from the two edges' ABOVE bundle bits and
      bundle sides. */
  function InsideBelow(b0: bool, side0: bool, b1: bool, side1: bool): bool {
    (b0 && !side0) || (b1 && side1) || (!b0 && !b1 && side0 && side1)
  }

  /** Occupancy by ONE input polygon of the quadrants around a crossing:
      crossing e1 toggles the top-left, crossing e0 the bottom-right, and
      both the bottom-left. */
  function CrossOccupancy(inside: bool, b0: bool, b1: bool): Quadrants {
    Quadrants(tr := inside,
              tl := inside != b1,
              br := inside != b0,
              bl := (inside != b1) != b0)
  }

  /** The quadrant bits of a crossing, as `Clip.clip` writes them per
      operation, from the ABOVE bundle bits and bundle sides of e0 and e1. */
  function CrossClass(op: Operation, above0: BitPair, side0: BitPair,
                      above1: BitPair, side1: BitPair): (q: Quadrants)
    ensures q == CombineQuads(op,
                   CrossOccupancy(InsideBelow(above0.clip, side0.clip, above1.clip, side1.clip),
                                  above0.clip, above1.clip),
                   CrossOccupancy(InsideBelow(above0.subj, side0.subj, above1.subj, side1.subj),
                                  above0.subj, above1.subj))
  {
    var ic := InsideBelow(above0.clip, side0.clip, above1.clip, side1.clip);
    var is_ := InsideBelow(above0.subj, side0.subj, above1.subj, side1.subj);
    match op
    case Diff | Int =>
      Quadrants(
        tr := ic && is_,
        tl := (ic != above1.clip) && (is_ != above1.subj),
        br := (ic != above0.clip) && (is_ != above0.subj),
        bl := ((ic != above1.clip) != above0.clip) && ((is_ != above1.subj) != above0.subj))
    case Xor =>
      Quadrants(
        tr := ic != is_,
        tl := (ic != above1.clip) != (is_ != above1.subj),
        br := (ic != above0.clip) != (is_ != above0.subj),
        bl := ((ic != above1.clip) != above0.clip) != ((is_ != above1.subj) != above0.subj))
    case Union =>
      Quadrants(
        tr := ic || is_,
        tl := (ic != above1.clip) || (is_ != above1.subj),
        br := (ic != above0.clip) || (is_ != above0.subj),
        bl := ((ic != above1.clip) != above0.clip) || ((is_ != above1.subj) != above0.subj))
  }

  /** The bundle-side flips after a crossing: each edge's side for a polygon
      type toggles exactly when the other edge carries that type. */
  function CrossedSides(above0: BitPair, side0: BitPair, above1: BitPair, side1: BitPair)
    : (r: (BitPair, BitPair))
    ensures forall t: PolyType ::
              r.0.Get(t) == (side0.Get(t) != above1.Get(t)) &&
              r.1.Get(t) == (side1.Get(t) != above0.Get(t))
  {
    var s1c := if above0.clip then !side1.clip else side1.clip;
    var s0c := if above1.clip then !side0.clip else side0.clip;
    var s1s := if above0.subj then !side1.subj else side1.subj;
    var s0s := if above1.subj then !side0.subj else side0.subj;
    (Pair(s0c, s0s), Pair(s1c, s1s))
  }

  /** A bundle side records the parity left of its edge.  When e0 has the
      parity `p` to its left and e1 follows it, so that e1 has `p` toggled by
      e0's bits, the flips of a crossing keep this true in the new order: e1,
      now first, has `p`, and e0 has `p` toggled by e1's bits. */
  lemma CrossingKeepsSideParity(p: BitPair, above0: BitPair, above1: BitPair)
    ensures CrossedSides(above0, p, above1, Toggle(p, above0)) == (Toggle(p, above1), p)
  {
  }
}
