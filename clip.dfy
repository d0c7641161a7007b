/** The entry of `Clip.clip` (gpc/gpc.js:74-137): the guards that return an
    empty result without sweeping, and the parities the sweep starts from.

    Building the local minimum table (`build_lmt`) and the contour
    pre-selection (`minimax_test`) are not part of this model; whether the
    table came out empty is a parameter. */
module Clipping {
  import opened Common
  import opened Classify
  import opened Polygons

  /** What each operation keeps of a point inside or outside the subject
      and the clip polygon. */
  predicate Member(op: Operation, inSubj: bool, inClip: bool) {
    match op
    case Diff => inSubj && !inClip
    case Int => inSubj && inClip
    case Xor => inSubj != inClip
    case Union => inSubj || inClip
  }

  /** The guard of gpc/gpc.js:78-85: both inputs empty, or an empty subject
      under INT or DIFF, or an empty clip polygon under INT.  These are
      exactly the cases in which no point can belong to the result. */
  function TrivialEmpty(op: Operation, subjEmpty: bool, clipEmpty: bool): (r: bool)
    ensures r <==> forall inSubj: bool, inClip: bool ::
                     (subjEmpty ==> !inSubj) && (clipEmpty ==> !inClip) ==> !Member(op, inSubj, inClip)
  {
    var r := (subjEmpty && clipEmpty) || (subjEmpty && (op == Int || op == Diff)) || (clipEmpty && op == Int);
    assert !r ==> !subjEmpty ==> Member(op, true, op == Int);
    assert !r ==> subjEmpty ==> Member(op, false, true);
    r
  }

  /** The parities at the start of the sweep (gpc/gpc.js:130-137): both LEFT
      (false), except that DIFF starts the clip parity RIGHT (true). */
  function InitialParity(op: Operation): (p: BitPair)
    ensures !p.subj
    ensures p.clip <==> op == Diff
  {
    Pair(op == Diff, false)
  }

  /** Starting the clip parity RIGHT for DIFF inverts the clip polygon, so
      that combining the occupancies seen through the starting parities by
      the rule of each operation gives exactly that operation's membership. */
  lemma InitialParityInverts(op: Operation, inSubj: bool, inClip: bool)
    ensures Combine(op, inClip != InitialParity(op).clip, inSubj != InitialParity(op).subj)
            == Member(op, inSubj, inClip)
  {
  }

  /** The start of `Clip.clip`: a fresh empty result, returned at once in
      the trivial cases and when no contour contributes to the local
      minimum table; otherwise the sweep goes on from `parity`. */
  method ClipStart(op: Operation, subj: PolyDefault, clip: PolyDefault, lmtEmpty: bool)
    returns (result: PolyDefault, parity: Option<BitPair>)
    ensures fresh(result) && result.list == [] && !result.hole
    ensures parity.None? <==> TrivialEmpty(op, subj.list == [], clip.list == []) || lmtEmpty
    ensures parity.Some? ==> parity.value == InitialParity(op)
  {
    result := new PolyDefault();
    var subjEmpty := subj.IsEmpty();
    var clipEmpty := clip.IsEmpty();
    if (subjEmpty && clipEmpty) || (subjEmpty && (op == Int || op == Diff)) || (clipEmpty && op == Int) {
      return result, None;
    }
    if lmtEmpty {
      return result, None;
    }
    var p := Pair(false, false);
    if op == Diff {
      p := p.(clip := true);
    }
    parity := Some(p);
  }
}
